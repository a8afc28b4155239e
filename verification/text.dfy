/** The string handling behind the faculty subjects field: Python's `str.split(",")`,
    `str.strip()` and the comprehension that keeps the non-blank stripped pieces. */
module Text {

  /** Python's `str.isspace` for one character: the Unicode characters with
      bidirectional class WS, B or S, or general category Zs. */
  predicate IsSpace(c: char) {
    || '\t' <= c <= '\r'
    || '\U{1C}' <= c <= '\U{1F}'
    || c == ' ' || c == '\U{85}' || c == '\U{A0}' || c == '\U{1680}'
    || '\U{2000}' <= c <= '\U{200A}'
    || c == '\U{2028}' || c == '\U{2029}' || c == '\U{202F}' || c == '\U{205F}'
    || c == '\U{3000}'
  }

  predicate AllSpace(s: string) {
    forall i :: 0 <= i < |s| ==> IsSpace(s[i])
  }

  /** How many whitespace characters `s` starts with. */
  function LeadingSpace(s: string): (k: nat)
    ensures k <= |s|
    ensures forall i :: 0 <= i < k ==> IsSpace(s[i])
    ensures k < |s| ==> !IsSpace(s[k])
  {
    if |s| > 0 && IsSpace(s[0]) then 1 + LeadingSpace(s[1..]) else 0
  }

  /** Where the text of `s` ends: everything from there on is whitespace. */
  function TextEnd(s: string): (k: nat)
    ensures k <= |s|
    ensures forall i :: k <= i < |s| ==> IsSpace(s[i])
    ensures k > 0 ==> !IsSpace(s[k - 1])
  {
    if |s| > 0 && IsSpace(s[|s| - 1]) then TextEnd(s[..|s| - 1]) else |s|
  }

  /** `s.strip()`: the piece of `s` between its leading and its trailing whitespace. */
  function Strip(s: string): (r: string)
    ensures r == [] <==> AllSpace(s)
    ensures r == [] || (!IsSpace(r[0]) && !IsSpace(r[|r| - 1]))
    ensures forall c :: c in r ==> c in s
  {
    var i := LeadingSpace(s);
    if i == |s| then [] else s[i..TextEnd(s)]
  }

  /** The stripped text is a slice of the input with only whitespace before and after it. */
  lemma StripSlice(s: string)
    ensures exists i, j :: 0 <= i <= j <= |s| && Strip(s) == s[i..j] && AllSpace(s[..i]) && AllSpace(s[j..])
  {
    var i := LeadingSpace(s);
    if i == |s| {
      assert s[..|s|] == s && s[|s|..|s|] == [];
    } else {
      var j := TextEnd(s);
      assert AllSpace(s[..i]) && AllSpace(s[j..]);
    }
  }

  /** Stripping is determined by its shape: whenever `s` is whitespace, then `t`, then
      whitespace, and `t` is empty or starts and ends with non-whitespace, the
      stripped text of `s` is `t`. */
  lemma {:induction false} StripUnique(s: string, a: string, t: string, b: string)
    requires s == a + t + b && AllSpace(a) && AllSpace(b)
    requires t == [] || (!IsSpace(t[0]) && !IsSpace(t[|t| - 1]))
    ensures Strip(s) == t
  {
    var i := LeadingSpace(s);
    var j := TextEnd(s);
    if t == [] {
      assert AllSpace(s) by {
        forall k | 0 <= k < |s| ensures IsSpace(s[k]) {
          if k < |a| { assert s[k] == a[k]; } else { assert s[k] == b[k - |a|]; }
        }
      }
    } else {
      assert s[|a|] == t[0];
      assert s[|a| + |t| - 1] == t[|t| - 1];
      forall k | 0 <= k < |a| ensures IsSpace(s[k]) { assert s[k] == a[k]; }
      forall k | |a| + |t| <= k < |s| ensures IsSpace(s[k]) { assert s[k] == b[k - |a| - |t|]; }
      assert i == |a|;
      assert j == |a| + |t|;
      assert s[i..j] == t;
    }
  }

  /** The pieces of `s` between the separators, joined back by the separator. */
  function Join(pieces: seq<string>, sep: char): string
    requires |pieces| >= 1
  {
    if |pieces| == 1 then pieces[0] else pieces[0] + [sep] + Join(pieces[1..], sep)
  }

  /** `s.split(sep)` for a one-character separator: never empty, no piece holds the
      separator, and joining the pieces gives back `s`. */
  function Split(s: string, sep: char): (pieces: seq<string>)
    ensures |pieces| >= 1
    ensures forall k :: 0 <= k < |pieces| ==> sep !in pieces[k]
    ensures Join(pieces, sep) == s
  {
    if |s| == 0 then [[]]
    else if s[0] == sep then
      var rest := Split(s[1..], sep);
      assert s == [] + [sep] + s[1..];
      [[]] + rest
    else
      var rest := Split(s[1..], sep);
      var pieces := [[s[0]] + rest[0]] + rest[1..];
      assert pieces[1..] == rest[1..];
      assert s == [s[0]] + s[1..];
      pieces
  }

  /** A subject name as stored: not empty, no whitespace at either end. */
  predicate IsToken(t: string) {
    t != [] && !IsSpace(t[0]) && !IsSpace(t[|t| - 1])
  }

  /** The stripped pieces that are not blank, in their original order. */
  function KeepTokens(pieces: seq<string>): (tokens: seq<string>)
    ensures |tokens| <= |pieces|
  {
    if |pieces| == 0 then []
    else
      var t := Strip(pieces[0]);
      (if t == [] then [] else [t]) + KeepTokens(pieces[1..])
  }

  /** `[s.strip() for s in subjects.split(",") if s.strip()]`. */
  function ParseSubjects(subjects: string): (tokens: seq<string>)
    ensures forall k :: 0 <= k < |tokens| ==> IsToken(tokens[k])
    ensures forall k :: 0 <= k < |tokens| ==> ',' !in tokens[k]
  {
    var pieces := Split(subjects, ',');
    KeepTokensAvoid(pieces, ',');
    KeepTokensAreTokens(pieces);
    KeepTokens(pieces)
  }

  /** Every kept piece is stripped and not blank. */
  lemma {:induction false} KeepTokensAreTokens(pieces: seq<string>)
    ensures forall k :: 0 <= k < |KeepTokens(pieces)| ==> IsToken(KeepTokens(pieces)[k])
    decreases |pieces|
  {
    if |pieces| > 0 {
      var t := Strip(pieces[0]);
      var head: seq<string> := if t == [] then [] else [t];
      var rest := KeepTokens(pieces[1..]);
      KeepTokensAreTokens(pieces[1..]);
      assert KeepTokens(pieces) == head + rest;
      forall k | 0 <= k < |head + rest| ensures IsToken((head + rest)[k]) {
        if k < |head| { assert (head + rest)[k] == t; } else { assert (head + rest)[k] == rest[k - |head|]; }
      }
    }
  }

  /** A character that no piece holds is in no token. */
  lemma {:induction false} KeepTokensAvoid(pieces: seq<string>, c: char)
    requires forall j :: 0 <= j < |pieces| ==> c !in pieces[j]
    ensures forall k :: 0 <= k < |KeepTokens(pieces)| ==> c !in KeepTokens(pieces)[k]
    decreases |pieces|
  {
    if |pieces| > 0 {
      KeepTokensAvoid(pieces[1..], c);
    }
  }

  /** Splitting at one more separator splits the two sides independently. */
  lemma {:induction false} SplitAppend(a: string, b: string, sep: char)
    ensures Split(a + [sep] + b, sep) == Split(a, sep) + Split(b, sep)
    decreases |a|
  {
    var s := a + [sep] + b;
    if |a| == 0 {
      assert s[1..] == b;
    } else {
      assert s[1..] == a[1..] + [sep] + b;
      SplitAppend(a[1..], b, sep);
    }
  }

  /** A string without the separator is a single piece. */
  lemma {:induction false} SplitNoSeparator(a: string, sep: char)
    requires sep !in a
    ensures Split(a, sep) == [a]
    decreases |a|
  {
    if |a| > 0 {
      SplitNoSeparator(a[1..], sep);
      assert a == [a[0]] + a[1..];
    }
  }

  lemma {:induction false} KeepTokensAppend(p: seq<string>, q: seq<string>)
    ensures KeepTokens(p + q) == KeepTokens(p) + KeepTokens(q)
    decreases |p|
  {
    if |p| == 0 {
      assert p + q == q;
    } else {
      assert (p + q)[1..] == p[1..] + q;
      KeepTokensAppend(p[1..], q);
    }
  }

  /** The tokens of two comma-separated parts are the tokens of the first part followed by
      those of the second: the parse keeps the order of the source segments. */
  lemma ParseSubjectsAppend(a: string, b: string)
    ensures ParseSubjects(a + "," + b) == ParseSubjects(a) + ParseSubjects(b)
  {
    SplitAppend(a, b, ',');
    KeepTokensAppend(Split(a, ','), Split(b, ','));
  }

  /** A single segment yields its stripped text, or nothing when it is blank. */
  lemma ParseSubjectsSegment(a: string)
    requires ',' !in a
    ensures ParseSubjects(a) == (if AllSpace(a) then [] else [Strip(a)])
  {
    SplitNoSeparator(a, ',');
    assert [a][1..] == [];
  }

  /** Nothing but whitespace and commas. */
  predicate Blank(s: string) {
    forall i :: 0 <= i < |s| ==> IsSpace(s[i]) || s[i] == ','
  }

  lemma BlankAppend(a: string, b: string)
    ensures Blank(a + "," + b) <==> Blank(a) && Blank(b)
  {
    var s := a + "," + b;
    if Blank(s) {
      assert forall j :: 0 <= j < |a| ==> a[j] == s[j];
      assert forall j :: 0 <= j < |b| ==> b[j] == s[|a| + 1 + j];
    }
  }

  /** The parse is empty exactly when the input holds nothing but whitespace and commas;
      in particular a blank input yields no subjects. */
  lemma {:induction false} ParseSubjectsEmpty(s: string)
    ensures ParseSubjects(s) == [] <==> Blank(s)
    decreases |s|
  {
    if ',' in s {
      var i :| 0 <= i < |s| && s[i] == ',';
      var a, b := s[..i], s[i + 1..];
      assert s == a + "," + b;
      ParseSubjectsAppend(a, b);
      BlankAppend(a, b);
      ParseSubjectsEmpty(a);
      ParseSubjectsEmpty(b);
    } else {
      ParseSubjectsSegment(s);
    }
  }
}
