/** The key normaliser `norm_key` (absence.py:19-25): decompose accented
    letters, drop the combining marks, uppercase, and collapse whitespace
    runs to single spaces with no space at either end. */
module Keys {
  import opened Text
  import opened Wrappers

  // ---------------------------------------------------------------------
  // Character tables: the part of Unicode NFKD, combining() and upper()
  // that the model covers (the Latin-1 block).
  // ---------------------------------------------------------------------

  const Grave := '\U{300}'
  const Acute := '\U{301}'
  const Circumflex := '\U{302}'
  const Tilde := '\U{303}'
  const Macron := '\U{304}'
  const Diaeresis := '\U{308}'
  const Ring := '\U{30A}'
  const Cedilla := '\U{327}'
  const FractionSlash := '\U{2044}'
  const SmallMu := '\U{3BC}'

  /** unicodedata.combining(c) != 0, for the combining diacritical marks block. */
  predicate IsCombining(c: char)
  {
    '\U{300}' <= c <= '\U{36F}'
  }

  /** Base letter and mark of a precomposed Latin-1 letter, by its offset
      j in 0..31 inside the upper-case (U+00C0) or lower-case (U+00E0) half. */
  function LatinParts(j: int): (r: Option<(char, char)>)
    ensures r.Some? ==> 'A' <= r.value.0 <= 'Z' && IsCombining(r.value.1)
  {
    if 0 <= j <= 5 then Some(('A', [Grave, Acute, Circumflex, Tilde, Diaeresis, Ring][j]))
    else if j == 7 then Some(('C', Cedilla))
    else if 8 <= j <= 11 then Some(('E', [Grave, Acute, Circumflex, Diaeresis][j - 8]))
    else if 12 <= j <= 15 then Some(('I', [Grave, Acute, Circumflex, Diaeresis][j - 12]))
    else if j == 17 then Some(('N', Tilde))
    else if 18 <= j <= 22 then Some(('O', [Grave, Acute, Circumflex, Tilde, Diaeresis][j - 18]))
    else if 25 <= j <= 28 then Some(('U', [Grave, Acute, Circumflex, Diaeresis][j - 25]))
    else if j == 29 then Some(('Y', Acute))
    else None
  }

  /** Compatibility decomposition of the Latin-1 symbols U+00A8..U+00BF:
      spacing accents become a space and the combining mark, the ordinal
      indicators letters, the superscripts digits, the vulgar fractions
      digit, fraction slash, digit, and the micro sign the Greek mu. */
  function SymbolParts(k: int): (r: Option<seq<char>>)
    ensures r.Some? ==> 1 <= |r.value| <= 3
  {
    if k == 0xA8 then Some([' ', Diaeresis])
    else if k == 0xAA then Some(['a'])
    else if k == 0xAF then Some([' ', Macron])
    else if k == 0xB2 then Some(['2'])
    else if k == 0xB3 then Some(['3'])
    else if k == 0xB4 then Some([' ', Acute])
    else if k == 0xB5 then Some([SmallMu])
    else if k == 0xB8 then Some([' ', Cedilla])
    else if k == 0xB9 then Some(['1'])
    else if k == 0xBA then Some(['o'])
    else if k == 0xBC then Some(['1', FractionSlash, '4'])
    else if k == 0xBD then Some(['1', FractionSlash, '2'])
    else if k == 0xBE then Some(['3', FractionSlash, '4'])
    else None
  }

  /** NFKD decomposition of one character: precomposed Latin-1 letters
      become base letter + combining mark, the no-break space becomes a
      space, the Latin-1 symbols with a compatibility mapping take it,
      every other character stands for itself. */
  function Decompose(c: char): (r: seq<char>)
    ensures 1 <= |r| <= 3
    ensures forall i :: 0 <= i < |r| ==>
      r[i] == c || r[i] == ' ' || IsAsciiLetter(r[i]) || IsDigit(r[i]) || IsCombining(r[i])
      || r[i] == FractionSlash || r[i] == SmallMu
  {
    var k := c as int;
    if c == '\U{A0}' then [' ']
    else if 0xA8 <= k < 0xC0 then
      match SymbolParts(k)
      case Some(parts) => parts
      case None => [c]
    else if c == '\U{FF}' then ['y', Diaeresis]
    else if 0xC0 <= k < 0xE0 then
      match LatinParts(k - 0xC0)
      case Some((b, m)) => [b, m]
      case None => [c]
    else if 0xE0 <= k < 0x100 then
      match LatinParts(k - 0xE0)
      case Some((b, m)) => [((b as int) + 32) as char, m]
      case None => [c]
    else [c]
  }

  predicate IsAsciiLetter(c: char)
  {
    'A' <= c <= 'Z' || 'a' <= c <= 'z'
  }

  /** Python's str.upper() on one character, for ASCII, Latin-1 and the Greek mu NFKD makes of the micro sign. */
  function Upper(c: char): (u: char)
    ensures IsSpace(u) == IsSpace(c)
    ensures IsCombining(u) == IsCombining(c)
  {
    if 'a' <= c <= 'z' then ((c as int) - 32) as char
    else if '\U{E0}' <= c <= '\U{FE}' && c != '\U{F7}' then ((c as int) - 32) as char
    else if c == '\U{FF}' then '\U{178}'
    else if c == '\U{B5}' || c == SmallMu then '\U{39C}'
    else c
  }

  /** A character that every step of the normaliser leaves alone. */
  predicate Settled(c: char)
  {
    Decompose(c) == [c] && !IsCombining(c) && Upper(c) == c
  }

  lemma DecomposeOutputsAreFixed(c: char)
    ensures forall i :: 0 <= i < |Decompose(c)| ==> Decompose(Decompose(c)[i]) == [Decompose(c)[i]]
  {
    var k := c as int;
    if 0xC0 <= k < 0xE0 {
      var p := LatinParts(k - 0xC0);
    } else if 0xE0 <= k < 0x100 && c != '\U{FF}' {
      var p := LatinParts(k - 0xE0);
    }
  }

  lemma UpperSettles(c: char)
    requires Decompose(c) == [c] && !IsCombining(c)
    ensures Settled(Upper(c))
  {
    var k := c as int;
    if 0xE0 <= k < 0xFF && c != '\U{F7}' {
      assert LatinParts(k - 0xE0).None?;
      assert LatinParts(k - 0xE0) == LatinParts((Upper(c) as int) - 0xC0);
    }
  }

  // ---------------------------------------------------------------------
  // The pipeline stages, each on a whole string.
  // ---------------------------------------------------------------------

  /** unicodedata.normalize("NFKD", s) */
  function DecomposeAll(s: string): (r: string)
    ensures forall i :: 0 <= i < |r| ==> Decompose(r[i]) == [r[i]]
  {
    if s == [] then []
    else
      var head := Decompose(s[0]);
      DecomposeOutputsAreFixed(s[0]);
      var r := head + DecomposeAll(s[1..]);
      assert forall i :: 0 <= i < |head| ==> r[i] == head[i];
      r
  }

  /** "".join(ch for ch in s if not unicodedata.combining(ch)) */
  function DropMarks(s: string): (r: string)
    ensures forall i :: 0 <= i < |r| ==> !IsCombining(r[i])
    ensures (forall i :: 0 <= i < |s| ==> Decompose(s[i]) == [s[i]]) ==> forall i :: 0 <= i < |r| ==> Decompose(r[i]) == [r[i]]
  {
    if s == [] then []
    else if IsCombining(s[0]) then DropMarks(s[1..])
    else [s[0]] + DropMarks(s[1..])
  }

  /** s.upper() */
  function UpperAll(s: string): (r: string)
    ensures |r| == |s| && forall i :: 0 <= i < |s| ==> r[i] == Upper(s[i])
  {
    if s == [] then [] else [Upper(s[0])] + UpperAll(s[1..])
  }

  /** A word of str.split(): non-empty, no whitespace. */
  predicate IsWord(w: string)
  {
    w != [] && forall i :: 0 <= i < |w| ==> !IsSpace(w[i])
  }

  /** Length of the leading run of non-whitespace characters. */
  function WordLength(s: string): (n: nat)
    ensures n <= |s|
    ensures forall i :: 0 <= i < n ==> !IsSpace(s[i])
    ensures n < |s| ==> IsSpace(s[n])
  {
    if s == [] || IsSpace(s[0]) then 0 else 1 + WordLength(s[1..])
  }

  /** s.split(): the maximal runs of non-whitespace characters, in order. */
  function Words(s: string): (ws: seq<string>)
    ensures forall k :: 0 <= k < |ws| ==> IsWord(ws[k])
    decreases |s|
  {
    if s == [] then []
    else if IsSpace(s[0]) then Words(s[1..])
    else
      var n := WordLength(s);
      [s[..n]] + Words(s[n..])
  }

  /** " ".join(ws) */
  function Join(ws: seq<string>): (s: string)
  {
    if ws == [] then ""
    else if |ws| == 1 then ws[0]
    else ws[0] + " " + Join(ws[1..])
  }

  /** norm_key(s) for a string argument. */
  function NormKey(s: string): (r: string)
    ensures forall i :: 0 <= i < |r| ==> Settled(r[i])
    ensures Canonical(r)
  {
    var d := DropMarks(DecomposeAll(s));
    var u := UpperAll(d);
    forall i | 0 <= i < |u| ensures Settled(u[i]) {
      UpperSettles(d[i]);
    }
    var ws := Words(u);
    WordsKeepSettled(u);
    JoinCanonical(ws);
    JoinChars(ws);
    Join(ws)
  }

  lemma {:induction false} WordsKeepSettled(s: string)
    requires forall i :: 0 <= i < |s| ==> Settled(s[i])
    ensures forall k, i :: 0 <= k < |Words(s)| && 0 <= i < |Words(s)[k]| ==> Settled(Words(s)[k][i])
    decreases |s|
  {
    if s != [] {
      if IsSpace(s[0]) {
        WordsKeepSettled(s[1..]);
      } else {
        var n := WordLength(s);
        WordsKeepSettled(s[n..]);
      }
    }
  }

  /** norm_key(s) where the argument may be None: None gives "". */
  function NormKeyOpt(s: Option<string>): (r: string)
    ensures s.None? ==> r == ""
    ensures s.Some? ==> r == NormKey(s.value)
  {
    match s
    case None => ""
    case Some(t) => NormKey(t)
  }

  /** The shape norm_key promises: the only whitespace is the plain space,
      none at either end and never two in a row. */
  predicate Canonical(r: string)
  {
    && (forall i :: 0 <= i < |r| && IsSpace(r[i]) ==> r[i] == ' ')
    && (r != [] ==> !IsSpace(r[0]) && !IsSpace(r[|r| - 1]))
    && (forall i :: 0 <= i < |r| - 1 ==> !(IsSpace(r[i]) && IsSpace(r[i + 1])))
  }

  // ---------------------------------------------------------------------
  // Lemmas
  // ---------------------------------------------------------------------

  lemma {:induction false} JoinChars(ws: seq<string>)
    requires forall k, i :: 0 <= k < |ws| && 0 <= i < |ws[k]| ==> Settled(ws[k][i])
    ensures forall i :: 0 <= i < |Join(ws)| ==> Settled(Join(ws)[i])
  {
    if |ws| > 1 {
      JoinChars(ws[1..]);
      var s := Join(ws);
      forall i | 0 <= i < |s| ensures Settled(s[i]) {
        if i < |ws[0]| {
        } else if i == |ws[0]| {
        } else {
          assert s[i] == Join(ws[1..])[i - |ws[0]| - 1];
        }
      }
    }
  }

  lemma {:induction false} JoinCanonical(ws: seq<string>)
    requires forall k :: 0 <= k < |ws| ==> IsWord(ws[k])
    ensures Canonical(Join(ws))
    ensures |ws| > 0 ==> |Join(ws)| > 0 && Join(ws)[0] == ws[0][0]
  {
    if |ws| > 1 {
      JoinCanonical(ws[1..]);
      var w, t := ws[0], Join(ws[1..]);
      var s := Join(ws);
      assert s == w + [' '] + t;
      forall i | 0 <= i < |s| && IsSpace(s[i]) ensures s[i] == ' ' {
        if i > |w| { assert s[i] == t[i - |w| - 1]; }
      }
      forall i | 0 <= i < |s| - 1 ensures !(IsSpace(s[i]) && IsSpace(s[i + 1])) {
        if i > |w| { assert s[i] == t[i - |w| - 1] && s[i + 1] == t[i - |w|]; }
      }
    }
  }

  lemma {:induction false} WordLengthOfWord(w: string, t: string)
    requires IsWord(w) && (t == [] || IsSpace(t[0]))
    ensures WordLength(w + t) == |w|
    decreases |w|
  {
    if |w| > 1 {
      assert (w + t)[1..] == w[1..] + t;
      WordLengthOfWord(w[1..], t);
    } else {
      assert (w + t)[1..] == t;
    }
  }

  /** Splitting a joined list of words gives the words back. */
  lemma {:induction false} WordsOfJoin(ws: seq<string>)
    requires forall k :: 0 <= k < |ws| ==> IsWord(ws[k])
    ensures Words(Join(ws)) == ws
  {
    if |ws| == 1 {
      WordLengthOfWord(ws[0], "");
      assert ws[0][|ws[0]|..] == [];
      assert ws[0][..|ws[0]|] == ws[0];
    } else if |ws| > 1 {
      var w, t := ws[0], Join(ws[1..]);
      var s := Join(ws);
      assert s == w + (" " + t);
      WordLengthOfWord(w, " " + t);
      assert s[..|w|] == w;
      assert s[|w|..] == " " + t;
      assert (" " + t)[1..] == t;
      WordsOfJoin(ws[1..]);
    }
  }

  lemma {:induction false} SettledStagesFixed(s: string)
    requires forall i :: 0 <= i < |s| ==> Settled(s[i])
    ensures UpperAll(DropMarks(DecomposeAll(s))) == s
  {
    if s != [] {
      SettledStagesFixed(s[1..]);
      assert DecomposeAll(s) == [s[0]] + DecomposeAll(s[1..]);
    }
  }

  /** norm_key is idempotent: norm_key(norm_key(s)) == norm_key(s). */
  lemma NormKeyIdempotent(s: string)
    ensures NormKey(NormKey(s)) == NormKey(s)
  {
    var ws := Words(UpperAll(DropMarks(DecomposeAll(s))));
    WordsOfJoin(ws);
    SettledStagesFixed(NormKey(s));
  }

  /** Words of settled characters joined by single spaces are their own
      key; the six sheet names of the profile table are of this kind. */
  lemma NormKeyOfJoin(ws: seq<string>)
    requires forall k :: 0 <= k < |ws| ==> IsWord(ws[k])
    requires forall k, i :: 0 <= k < |ws| && 0 <= i < |ws[k]| ==> Settled(ws[k][i])
    ensures NormKey(Join(ws)) == Join(ws)
  {
    JoinChars(ws);
    SettledStagesFixed(Join(ws));
    WordsOfJoin(ws);
  }
}
