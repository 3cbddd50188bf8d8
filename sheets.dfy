/** Sheet classification: SHEET_PROFILE_MAP and `categorize_sheet`
    (absence.py:12-34, 101-116). */
module Sheets {
  import opened Text
  import opened Keys

  /** Employment type, which is also the role template. */
  datatype Employment = Permanent | Interim | Absence

  /** Organisational function of the sheet. */
  datatype Area = Quai | Codi

  /** (employment, function, template) as categorize_sheet returns it. */
  datatype Profile = Profile(employment: Employment, area: Area, template: Employment)

  function EmploymentName(e: Employment): string
  {
    match e
    case Permanent => "PERMANENT"
    case Interim => "INTERIM"
    case Absence => "ABSENCE"
  }

  function AreaName(a: Area): string
  {
    match a
    case Quai => "QUAI"
    case Codi => "CODI"
  }

  /** RAW_SHEETS (= TARGET_SHEETS): the sheets a workbook is read for, in order. */
  const RawSheets: seq<string> := [
    "FTE INTERIM QUAI", "FTE INTERIM CODI",
    "QUAI PERMANENTS", "CODI PERMANENTS",
    "QUAI ABSENTEISME", "CODI ABSENTEISME"]

  /** SHEET_PROFILE_MAP, keyed by the normalised sheet names. */
  const SheetProfileMap: map<string, Profile> := map[
    "FTE INTERIM QUAI" := Profile(Interim, Quai, Interim),
    "FTE INTERIM CODI" := Profile(Interim, Codi, Interim),
    "QUAI PERMANENTS" := Profile(Permanent, Quai, Permanent),
    "CODI PERMANENTS" := Profile(Permanent, Codi, Permanent),
    "QUAI ABSENTEISME" := Profile(Absence, Quai, Absence),
    "CODI ABSENTEISME" := Profile(Absence, Codi, Absence)]

  /** The absence keywords of the fallback: ABSENTEISME, ABSENCE, ABSENT. */
  predicate MentionsAbsence(key: string)
  {
    Contains(key, "ABSENTEISME") || Contains(key, "ABSENCE") || Contains(key, "ABSENT")
  }

  /** The fallback heuristic for a normalised name outside the table. */
  function FallbackProfile(key: string): (p: Profile)
    ensures p.area == Codi <==> !Contains(key, "QUAI") && Contains(key, "CODI")
    ensures p.employment == Absence <==> MentionsAbsence(key)
    ensures p.employment == Interim <==> !MentionsAbsence(key) && Contains(key, "INTERIM")
    ensures p.employment == Permanent <==> !MentionsAbsence(key) && !Contains(key, "INTERIM")
    ensures p.template == p.employment
  {
    var area := if Contains(key, "QUAI") then Quai else if Contains(key, "CODI") then Codi else Quai;
    var employment :=
      if MentionsAbsence(key) then Absence
      else if Contains(key, "INTERIM") then Interim
      else Permanent;
    var template :=
      if employment == Absence then Absence
      else if employment == Interim then Interim
      else Permanent;
    Profile(employment, area, template)
  }

  /** categorize_sheet(sheet_name) */
  function CategorizeSheet(sheetName: string): (p: Profile)
    ensures NormKey(sheetName) in SheetProfileMap ==> p == SheetProfileMap[NormKey(sheetName)]
    ensures NormKey(sheetName) !in SheetProfileMap ==> p == FallbackProfile(NormKey(sheetName))
    ensures p.template == p.employment
  {
    var key := NormKey(sheetName);
    if key in SheetProfileMap then SheetProfileMap[key]
    else FallbackProfile(key)
  }

  /** The table's keys are written normalised: norm_key leaves each alone. */
  lemma ProfileKeyIsNormalised(k: string)
    requires k in SheetProfileMap
    ensures NormKey(k) == k
  {
    if k == "FTE INTERIM QUAI" {
      InterimKey(k, "QUAI");
    } else if k == "FTE INTERIM CODI" {
      InterimKey(k, "CODI");
    } else if k == "QUAI PERMANENTS" || k == "CODI PERMANENTS" {
      KindKey(k, "PERMANENTS");
    } else {
      KindKey(k, "ABSENTEISME");
    }
  }

  lemma KindKey(k: string, kind: string)
    requires kind == "PERMANENTS" || kind == "ABSENTEISME"
    requires k == "QUAI " + kind || k == "CODI " + kind
    ensures NormKey(k) == k
  {
    if k == "QUAI " + kind {
      AreaKey(k, "QUAI", kind);
    } else {
      AreaKey(k, "CODI", kind);
    }
  }

  lemma InterimKey(k: string, area: string)
    requires area == "QUAI" || area == "CODI"
    requires k == "FTE INTERIM " + area
    ensures NormKey(k) == k
  {
    assert Capitals(area);
    ThreeWordKey("FTE", "INTERIM", area, k);
  }

  lemma AreaKey(k: string, area: string, kind: string)
    requires area == "QUAI" || area == "CODI"
    requires kind == "PERMANENTS" || kind == "ABSENTEISME"
    requires k == area + " " + kind
    ensures NormKey(k) == k
  {
    assert Capitals(area) && Capitals(kind);
    TwoWordKey(area, kind, k);
  }

  /** A non-empty run of capital ASCII letters. */
  predicate Capitals(w: string)
  {
    w != [] && forall i :: 0 <= i < |w| ==> 'A' <= w[i] <= 'Z'
  }

  /** Words of capital ASCII letters, joined by single spaces, are a
      normalised key. */
  lemma CapitalWordsKey(ws: seq<string>)
    requires forall k :: 0 <= k < |ws| ==> Capitals(ws[k])
    ensures NormKey(Join(ws)) == Join(ws)
  {
    forall k, i | 0 <= k < |ws| && 0 <= i < |ws[k]| ensures Settled(ws[k][i]) {
      CapitalSettled(ws[k][i]);
    }
    NormKeyOfJoin(ws);
  }

  lemma CapitalSettled(c: char)
    requires 'A' <= c <= 'Z'
    ensures Settled(c) && !IsSpace(c)
  {
  }

  lemma TwoWordKey(a: string, b: string, k: string)
    requires Capitals(a) && Capitals(b) && k == a + " " + b
    ensures NormKey(k) == k
  {
    var ws := [a, b];
    assert Join(ws) == ws[0] + " " + Join(ws[1..]);
    assert ws[1..] == [b];
    CapitalWordsKey(ws);
  }

  lemma TwoWordJoin(a: string, b: string)
    ensures Join([a, b]) == a + " " + b
  {
    assert [a, b][1..] == [b];
  }

  lemma ThreeWordKey(a: string, b: string, c: string, k: string)
    requires Capitals(a) && Capitals(b) && Capitals(c) && k == a + " " + (b + " " + c)
    ensures NormKey(k) == k
  {
    var ws := [a, b, c];
    assert Join(ws) == ws[0] + " " + Join(ws[1..]);
    assert ws[1..] == [b, c];
    TwoWordJoin(b, c);
    CapitalWordsKey(ws);
  }

  /** Every sheet the pipeline reads is found in the table: the fallback
      never decides the profile of a sheet read from a workbook. */
  lemma RawSheetsAreInTable(name: string)
    requires name in RawSheets
    ensures CategorizeSheet(name) == SheetProfileMap[name]
  {
    ProfileKeyIsNormalised(name);
  }
}
