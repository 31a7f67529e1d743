/** The few JavaScript `String.prototype` operations the workspace relies on,
    over strings as sequences of characters. */
module JsString {
  import opened Optional

  /** The `WhiteSpace` and `LineTerminator` code points of ECMAScript, which
      `trim()` removes from both ends. */
  predicate IsWhiteSpace(c: char) {
    c == '\t' || c == '\n' || c == '\U{000B}' || c == '\U{000C}' || c == '\r' || c == ' '
    || c == '\U{00A0}' || c == '\U{1680}' || ('\U{2000}' <= c <= '\U{200A}')
    || c == '\U{2028}' || c == '\U{2029}' || c == '\U{202F}' || c == '\U{205F}'
    || c == '\U{3000}' || c == '\U{FEFF}'
  }

  predicate AllWhiteSpace(s: string) {
    forall k :: 0 <= k < |s| ==> IsWhiteSpace(s[k])
  }

  /** `s.trimStart()`: the suffix left after dropping leading white space. */
  function TrimStart(s: string): (r: string)
    ensures |r| <= |s| && r == s[|s| - |r|..]
    ensures AllWhiteSpace(s[..|s| - |r|])
    ensures r == [] || !IsWhiteSpace(r[0])
  {
    if s != [] && IsWhiteSpace(s[0]) then TrimStart(s[1..]) else s
  }

  /** `s.trimEnd()`: the prefix left after dropping trailing white space. */
  function TrimEnd(s: string): (r: string)
    ensures |r| <= |s| && r == s[..|r|]
    ensures AllWhiteSpace(s[|r|..])
    ensures r == [] || !IsWhiteSpace(r[|r| - 1])
  {
    if s != [] && IsWhiteSpace(s[|s| - 1]) then TrimEnd(s[..|s| - 1]) else s
  }

  /** `s.trim()`: the part of `s` left between a leading and a trailing run
      of white space. */
  function Trim(s: string): (r: string)
    ensures |r| <= |s|
    ensures r == [] || (!IsWhiteSpace(r[0]) && !IsWhiteSpace(r[|r| - 1]))
    ensures exists i, j :: 0 <= i <= j <= |s| && r == s[i..j] && AllWhiteSpace(s[..i]) && AllWhiteSpace(s[j..])
  {
    var t := TrimStart(s);
    var r := TrimEnd(t);
    var i, j := |s| - |t|, |s| - |t| + |r|;
    assert r == s[i..j] && s[j..] == t[|r|..];
    r
  }

  /** A trimmed string is empty exactly when the input was all white space. */
  lemma TrimEmptyIff(s: string)
    ensures Trim(s) == [] <==> AllWhiteSpace(s)
  {
    var t := TrimStart(s);
    if Trim(s) == [] {
      assert AllWhiteSpace(t[0..]);
      assert t == [];
      assert s[..|s|] == s;
    } else if t != [] {
      assert s[|s| - |t|] == t[0];
    }
  }

  /** `s.startsWith(p)`. */
  predicate StartsWith(s: string, p: string) {
    |p| <= |s| && s[..|p|] == p
  }

  /** `s.endsWith(p)`. */
  predicate EndsWith(s: string, p: string) {
    |p| <= |s| && s[|s| - |p|..] == p
  }

  predicate OccursAt(s: string, t: string, i: int) {
    0 <= i <= |s| - |t| && s[i..i + |t|] == t
  }

  /** `s.includes(t)`. */
  predicate Includes(s: string, t: string) {
    exists i :: 0 <= i <= |s| - |t| && OccursAt(s, t, i)
  }

  /** `s.substring(0, n)` for `n >= 0`: the first `n` characters, or all of them. */
  function Prefix(s: string, n: nat): (r: string)
    ensures |r| == if n < |s| then n else |s|
    ensures StartsWith(s, r)
  {
    if n < |s| then s[..n] else s
  }

  function LowerChar(c: char): char {
    if 'A' <= c <= 'Z' then (c as int + 32) as char else c
  }

  /** `s.toLowerCase()` restricted to the ASCII letters. */
  function ToLower(s: string): (r: string)
    ensures |r| == |s|
    ensures forall k :: 0 <= k < |s| ==> r[k] == LowerChar(s[k])
  {
    seq(|s|, k requires 0 <= k < |s| => LowerChar(s[k]))
  }

  /** `s.split(sep)` for a one-character separator: the pieces between
      consecutive separators; there is always at least one piece. */
  function Split(s: string, sep: char): (pieces: seq<string>)
    ensures |pieces| >= 1
    ensures forall k :: 0 <= k < |pieces| ==> sep !in pieces[k]
  {
    if s == [] then [[]]
    else
      var rest := Split(s[1..], sep);
      if s[0] == sep then [[]] + rest else [[s[0]] + rest[0]] + rest[1..]
  }

  /** `pieces.join(sep)`. */
  function Join(pieces: seq<string>, sep: char): string
    requires |pieces| >= 1
  {
    if |pieces| == 1 then pieces[0] else pieces[0] + [sep] + Join(pieces[1..], sep)
  }

  /** `s.split(sep)[k]`, which is `undefined` past the last piece. */
  function Field(s: string, sep: char, k: nat): Option<string> {
    var pieces := Split(s, sep);
    if k < |pieces| then Some(pieces[k]) else None
  }

  /** Splitting and joining again gives back the string. */
  lemma {:induction false} JoinOfSplit(s: string, sep: char)
    ensures Join(Split(s, sep), sep) == s
  {
    if s != [] {
      JoinOfSplit(s[1..], sep);
      var rest := Split(s[1..], sep);
      if s[0] != sep {
        if |rest| == 1 {
          assert Join(Split(s, sep), sep) == [s[0]] + rest[0];
        } else {
          assert rest == [rest[0]] + rest[1..];
          assert Join(rest, sep) == rest[0] + [sep] + Join(rest[1..], sep);
        }
      }
      assert s == [s[0]] + s[1..];
    }
  }

  /** Splitting a piece that holds no separator, after a prefix of it. */
  lemma {:induction false} SplitOfPiece(a: string, tail: string, sep: char)
    requires sep !in a
    ensures Split(a + tail, sep)[1..] == Split(tail, sep)[1..]
    ensures Split(a + tail, sep)[0] == a + Split(tail, sep)[0]
  {
    if a != [] {
      var s := a + tail;
      assert s[0] == a[0] && a[0] != sep;
      assert s[1..] == a[1..] + tail;
      SplitOfPiece(a[1..], tail, sep);
      var rest := Split(s[1..], sep);
      assert Split(s, sep) == [[a[0]] + rest[0]] + rest[1..];
      assert a == [a[0]] + a[1..];
    } else {
      assert a + tail == tail;
    }
  }

  /** Joining pieces free of the separator and splitting again gives back the pieces. */
  lemma {:induction false} SplitOfJoin(pieces: seq<string>, sep: char)
    requires |pieces| >= 1
    requires forall k :: 0 <= k < |pieces| ==> sep !in pieces[k]
    ensures Split(Join(pieces, sep), sep) == pieces
  {
    if |pieces| == 1 {
      SplitOfPiece(pieces[0], [], sep);
      assert pieces[0] + [] == pieces[0];
    } else {
      var tail := [sep] + Join(pieces[1..], sep);
      SplitOfJoin(pieces[1..], sep);
      SplitOfPiece(pieces[0], tail, sep);
      assert tail[1..] == Join(pieces[1..], sep);
      assert pieces[0] + [sep] + Join(pieces[1..], sep) == pieces[0] + tail;
      var rest := Split(tail[1..], sep);
      assert tail[0] == sep;
      assert Split(tail, sep) == [[]] + rest;
      assert rest == pieces[1..];
      var whole := Split(pieces[0] + tail, sep);
      assert whole[0] == pieces[0];
      assert whole[1..] == pieces[1..];
      assert whole == [whole[0]] + whole[1..];
    }
  }

  /** The field after the only separator of `a + [sep] + b` is `b`: for a
      data URL, `split(',')[1]` is the payload after the header. */
  lemma FieldAfterSeparator(a: string, b: string, sep: char)
    requires sep !in a && sep !in b
    ensures Field(a + [sep] + b, sep, 1) == Some(b)
    ensures Field(a + [sep] + b, sep, 2) == None
  {
    assert Join([a, b], sep) == a + [sep] + b;
    SplitOfJoin([a, b], sep);
  }

  /** With no separator at all there is a single piece, and field 1 is `undefined`. */
  lemma FieldWithoutSeparator(s: string, sep: char)
    requires sep !in s
    ensures Field(s, sep, 0) == Some(s)
    ensures Field(s, sep, 1) == None
  {
    SplitOfJoin([s], sep);
  }
}
