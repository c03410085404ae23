/** The parts of Rust's `str` that the launcher's backend relies on, over
    `seq<char>`: ASCII case folding, `trim`, `contains`, `lines` and the
    lexicographic `cmp` of `String`.  Rust works on UTF-8 bytes; ASCII case
    folding never touches a byte >= 0x80 and UTF-8 preserves code-point order,
    so working on chars gives the same answers. */
module Text {

  datatype Ordering = Less | Equal | Greater

  // ---------------------------------------------------------------------
  // ASCII case folding

  /** `u8::to_ascii_lowercase`: only 'A'..'Z' change. */
  function LowerChar(c: char): char {
    if 'A' <= c <= 'Z' then (c as int + 32) as char else c
  }

  /** `str::to_ascii_lowercase`, character by character. */
  function ToLower(s: string): (r: string)
    ensures |r| == |s|
    ensures forall i :: 0 <= i < |s| ==> r[i] == LowerChar(s[i])
  {
    seq(|s|, i requires 0 <= i < |s| => LowerChar(s[i]))
  }

  /** `str::eq_ignore_ascii_case`: same length and the bytes agree once
      lower-cased.  It is the same as comparing the lower-cased strings. */
  predicate EqIgnoreCase(a: string, b: string)
    ensures EqIgnoreCase(a, b) <==> ToLower(a) == ToLower(b)
  {
    var r := |a| == |b| && forall i :: 0 <= i < |a| ==> LowerChar(a[i]) == LowerChar(b[i]);
    assert r ==> ToLower(a) == ToLower(b) by {
      if r { assert forall i :: 0 <= i < |a| ==> ToLower(a)[i] == ToLower(b)[i]; }
    }
    assert ToLower(a) == ToLower(b) ==> r by {
      if ToLower(a) == ToLower(b) {
        assert forall i :: 0 <= i < |a| ==> LowerChar(a[i]) == ToLower(b)[i];
      }
    }
    r
  }

  lemma ToLowerConcat(a: string, b: string)
    ensures ToLower(a + b) == ToLower(a) + ToLower(b)
  {
  }

  lemma ToLowerSlice(s: string, i: int, j: int)
    requires 0 <= i <= j <= |s|
    ensures ToLower(s[i..j]) == ToLower(s)[i..j]
  {
  }

  // ---------------------------------------------------------------------
  // Whitespace and `trim`

  /** `char::is_whitespace`: the Unicode White_Space property, listed out. */
  predicate IsWhitespace(c: char) {
    var n := c as int;
    (0x09 <= n <= 0x0D) || n == 0x20 || n == 0x85 || n == 0xA0 || n == 0x1680
    || (0x2000 <= n <= 0x200A) || n == 0x2028 || n == 0x2029 || n == 0x202F
    || n == 0x205F || n == 0x3000
  }

  predicate AllWhitespace(s: string) {
    forall k :: 0 <= k < |s| ==> IsWhitespace(s[k])
  }

  /** `r` sits at offset `i` of `s`, only whitespace surrounds it, and it
      neither starts nor ends with whitespace. */
  ghost predicate TrimmedAt(s: string, i: int, r: string) {
    && 0 <= i <= |s| - |r|
    && s[i..i + |r|] == r
    && AllWhitespace(s[..i])
    && AllWhitespace(s[i + |r|..])
    && (r != [] ==> !IsWhitespace(r[0]) && !IsWhitespace(r[|r| - 1]))
  }

  /** `str::trim_start`. */
  function TrimStart(s: string): string {
    if s != [] && IsWhitespace(s[0]) then TrimStart(s[1..]) else s
  }

  /** `str::trim_end`. */
  function TrimEnd(s: string): string {
    if s != [] && IsWhitespace(s[|s| - 1]) then TrimEnd(s[..|s| - 1]) else s
  }

  /** `str::trim_start` drops the white space at the front and nothing
      else. */
  lemma {:induction false} TrimStartSpec(s: string)
    ensures |TrimStart(s)| <= |s| && TrimStart(s) == s[|s| - |TrimStart(s)|..]
    ensures AllWhitespace(s[..|s| - |TrimStart(s)|])
    ensures TrimStart(s) != [] ==> !IsWhitespace(TrimStart(s)[0])
  {
    if s != [] && IsWhitespace(s[0]) {
      var r := TrimStart(s[1..]);
      TrimStartSpec(s[1..]);
      assert s[..|s| - |r|] == [s[0]] + s[1..][..|s[1..]| - |r|];
      assert s[1..][|s[1..]| - |r|..] == s[|s| - |r|..];
    }
  }

  /** `str::trim_end` drops the white space at the back and nothing else. */
  lemma {:induction false} TrimEndSpec(s: string)
    ensures |TrimEnd(s)| <= |s| && TrimEnd(s) == s[..|TrimEnd(s)|]
    ensures AllWhitespace(s[|TrimEnd(s)|..])
    ensures TrimEnd(s) != [] ==> !IsWhitespace(TrimEnd(s)[|TrimEnd(s)| - 1])
  {
    if s != [] && IsWhitespace(s[|s| - 1]) {
      var r := TrimEnd(s[..|s| - 1]);
      TrimEndSpec(s[..|s| - 1]);
      assert s[|r|..] == s[..|s| - 1][|r|..] + [s[|s| - 1]];
      assert s[..|s| - 1][..|r|] == s[..|r|];
    }
  }

  /** `str::trim`. */
  function Trim(s: string): string {
    TrimEnd(TrimStart(s))
  }

  /** How many characters `str::trim` removes from the front of `s`. */
  function TrimOffset(s: string): nat {
    TrimStartSpec(s);
    |s| - |TrimStart(s)|
  }

  /** `str::trim` keeps the part of `s` left once the white space at both
      ends is gone. */
  lemma TrimSpec(s: string)
    ensures TrimmedAt(s, TrimOffset(s), Trim(s))
  {
    TrimFront(s);
    TrimBack(s);
    TrimMiddle(s);
    TrimEnds(s);
  }

  lemma TrimFront(s: string)
    ensures AllWhitespace(s[..TrimOffset(s)])
  {
    TrimStartSpec(s);
  }

  lemma TrimBack(s: string)
    ensures TrimOffset(s) + |Trim(s)| <= |s|
    ensures AllWhitespace(s[TrimOffset(s) + |Trim(s)|..])
  {
    var u := TrimStart(s);
    var r := TrimEnd(u);
    TrimStartSpec(s);
    TrimEndSpec(u);
    assert s[TrimOffset(s) + |r|..] == u[|r|..];
  }

  lemma TrimMiddle(s: string)
    ensures TrimOffset(s) + |Trim(s)| <= |s|
    ensures s[TrimOffset(s)..TrimOffset(s) + |Trim(s)|] == Trim(s)
  {
    var u := TrimStart(s);
    var r := TrimEnd(u);
    TrimStartSpec(s);
    TrimEndSpec(u);
    assert s[TrimOffset(s)..TrimOffset(s) + |r|] == u[..|r|];
  }

  lemma TrimEnds(s: string)
    ensures Trim(s) != [] ==> !IsWhitespace(Trim(s)[0]) && !IsWhitespace(Trim(s)[|Trim(s)| - 1])
  {
    var u := TrimStart(s);
    var r := TrimEnd(u);
    TrimStartSpec(s);
    TrimEndSpec(u);
    if r != [] {
      assert r[0] == u[0];
    }
  }

  /** What `TrimmedAt` says about the characters of `s` itself. */
  lemma TrimmedAtOutside(s: string, i: int, r: string)
    requires TrimmedAt(s, i, r)
    ensures forall k :: 0 <= k < i ==> IsWhitespace(s[k])
    ensures forall k :: i + |r| <= k < |s| ==> IsWhitespace(s[k])
    ensures forall k :: i <= k < i + |r| ==> s[k] == r[k - i]
  {
    forall k | 0 <= k < i ensures IsWhitespace(s[k]) {
      assert s[..i][k] == s[k];
    }
    forall k | i + |r| <= k < |s| ensures IsWhitespace(s[k]) {
      assert s[i + |r|..][k - (i + |r|)] == s[k];
    }
    forall k | i <= k < i + |r| ensures s[k] == r[k - i] {
      assert s[i..i + |r|][k - i] == s[k];
    }
  }

  /** Trimming keeps nothing exactly when the string is blank. */
  lemma TrimEmptyIffBlank(s: string)
    ensures Trim(s) == [] <==> AllWhitespace(s)
  {
    var r, i := Trim(s), TrimOffset(s);
    TrimSpec(s);
    TrimmedAtOutside(s, i, r);
    if r != [] {
      assert s[i] == r[0];
    }
  }

  /** A trimmed string is its own trim. */
  lemma TrimIdempotent(s: string)
    ensures Trim(Trim(s)) == Trim(s)
  {
    var r := Trim(s);
    var t, j := Trim(r), TrimOffset(r);
    TrimSpec(s);
    TrimSpec(r);
    TrimmedAtOutside(r, j, t);
    if r != [] {
      assert j == 0;
      assert |t| == |r|;
      assert t == r[0..|r|];
    }
  }

  /** Any part of `s` that begins and ends with a non-whitespace character
      survives trimming, at an offset shifted by what was trimmed. */
  lemma TrimKeepsInnerSlice(s: string, lo: int, hi: int)
    requires 0 <= lo < hi <= |s|
    requires !IsWhitespace(s[lo]) && !IsWhitespace(s[hi - 1])
    ensures TrimOffset(s) <= lo && hi <= TrimOffset(s) + |Trim(s)| <= |s|
    ensures Trim(s) == s[TrimOffset(s)..TrimOffset(s) + |Trim(s)|]
  {
    var r, i := Trim(s), TrimOffset(s);
    TrimSpec(s);
    TrimmedAtOutside(s, i, r);
    assert i <= lo;
    assert hi <= i + |r|;
  }

  // ---------------------------------------------------------------------
  // Substring search

  ghost predicate OccursAt(t: string, s: string, i: int) {
    0 <= i <= |s| - |t| && s[i..i + |t|] == t
  }

  /** `t` is a substring of `s`. */
  ghost predicate Occurs(t: string, s: string) {
    exists i :: OccursAt(t, s, i)
  }

  /** `str::contains` with a string pattern, as a left-to-right search. */
  function Contains(s: string, t: string): bool
    decreases |s|
  {
    t <= s || (s != [] && Contains(s[1..], t))
  }

  lemma {:induction false} ContainsIffOccurs(s: string, t: string)
    ensures Contains(s, t) <==> Occurs(t, s)
    decreases |s|
  {
    if t <= s {
      assert OccursAt(t, s, 0);
    } else if s == [] {
    } else {
      ContainsIffOccurs(s[1..], t);
      if Contains(s[1..], t) {
        var i :| OccursAt(t, s[1..], i);
        assert s[i + 1..i + 1 + |t|] == s[1..][i..i + |t|];
        assert OccursAt(t, s, i + 1);
      }
      if Occurs(t, s) {
        var i :| OccursAt(t, s, i);
        assert i != 0;
        assert s[1..][i - 1..i - 1 + |t|] == s[i..i + |t|];
        assert OccursAt(t, s[1..], i - 1);
      }
    }
  }

  /** A substring of a slice is a substring of the whole. */
  lemma OccursInSlice(t: string, s: string, lo: int, hi: int)
    requires 0 <= lo <= hi <= |s|
    requires Occurs(t, s[lo..hi])
    ensures Occurs(t, s)
  {
    var i :| OccursAt(t, s[lo..hi], i);
    forall k | 0 <= k < |t| ensures s[lo + i + k] == t[k] {
      assert s[lo..hi][i..i + |t|][k] == t[k];
    }
    assert s[lo + i..lo + i + |t|] == t;
    assert OccursAt(t, s, lo + i);
  }

  /** An occurrence inside a window of `s` is an occurrence in the slice. */
  lemma OccursInsideSlice(t: string, s: string, p: int, lo: int, hi: int)
    requires OccursAt(t, s, p) && 0 <= lo <= p && p + |t| <= hi <= |s|
    ensures OccursAt(t, s[lo..hi], p - lo)
  {
    forall k | 0 <= k < |t| ensures s[lo..hi][p - lo + k] == t[k] {
      assert s[p..p + |t|][k] == t[k];
    }
    assert s[lo..hi][p - lo..p - lo + |t|] == t;
  }

  // ---------------------------------------------------------------------
  // Line splitting

  /** Index of the first `c` in `s`. */
  function IndexOf(s: string, c: char): (r: Option<nat>)
    ensures r.None? ==> c !in s
    ensures r.Some? ==> r.value < |s| && s[r.value] == c && c !in s[..r.value]
  {
    if s == [] then None
    else if s[0] == c then Some(0)
    else match IndexOf(s[1..], c)
      case None => None
      case Some(i) =>
        assert s[..i + 1] == [s[0]] + s[1..][..i];
        Some(i + 1)
  }

  datatype Option<T> = None | Some(value: T)

  /** The line ending removed by `str::lines`: the `\n` is cut by the caller,
      and a `\r` just before it goes too. */
  function StripCarriageReturn(line: string): string {
    if line != [] && line[|line| - 1] == '\r' then line[..|line| - 1] else line
  }

  /** `str::lines`: split at every `\n`, drop a `\r` that directly precedes a
      `\n`, and yield no final empty line after a trailing `\n`.  A `\r` at
      the very end of the text, with no `\n` after it, is kept. */
  function Lines(s: string): (r: seq<string>)
    ensures forall k :: 0 <= k < |r| ==> '\n' !in r[k]
    decreases |s|
  {
    if s == [] then []
    else match IndexOf(s, '\n')
      case None => [s]
      case Some(i) => [StripCarriageReturn(s[..i])] + Lines(s[i + 1..])
  }

  /** One line followed by `\n` and more text splits into that line and the
      lines of the rest. */
  lemma LinesCons(line: string, rest: string)
    requires '\n' !in line
    ensures Lines(line + "\n" + rest) == [StripCarriageReturn(line)] + Lines(rest)
  {
    var s := line + "\n" + rest;
    assert s[|line|] == '\n';
    assert s[..|line|] == line;
    assert s[|line| + 1..] == rest;
  }

  /** Text with no `\n` is a single line (or none, when empty). */
  lemma LinesSingle(line: string)
    requires '\n' !in line && line != []
    ensures Lines(line) == [line]
  {
  }

  /** Each line terminated by `\n`, one after the other. */
  function JoinLines(ls: seq<string>): string {
    if ls == [] then [] else ls[0] + "\n" + JoinLines(ls[1..])
  }

  /** Splitting undoes joining, for lines that hold no `\n` and do not end in
      a `\r` (which `lines` would take for part of a `\r\n`). */
  lemma {:induction false} LinesOfJoinLines(ls: seq<string>)
    requires forall k :: 0 <= k < |ls| ==> '\n' !in ls[k]
    requires forall k :: 0 <= k < |ls| ==> StripCarriageReturn(ls[k]) == ls[k]
    ensures Lines(JoinLines(ls)) == ls
  {
    if ls != [] {
      var rest := ls[1..];
      assert forall k :: 0 <= k < |rest| ==> rest[k] == ls[k + 1];
      LinesCons(ls[0], JoinLines(rest));
      LinesOfJoinLines(rest);
      assert ls == [ls[0]] + rest;
    }
  }

  // ---------------------------------------------------------------------
  // Lexicographic order (`Ord for String`)

  function Compare(a: string, b: string): Ordering {
    if a == [] then (if b == [] then Equal else Less)
    else if b == [] then Greater
    else if a[0] < b[0] then Less
    else if a[0] > b[0] then Greater
    else Compare(a[1..], b[1..])
  }

  function Flip(o: Ordering): Ordering {
    match o
    case Less => Greater
    case Equal => Equal
    case Greater => Less
  }

  lemma {:induction false} CompareEqualIff(a: string, b: string)
    ensures Compare(a, b) == Equal <==> a == b
  {
    if a != [] && b != [] && a[0] == b[0] {
      CompareEqualIff(a[1..], b[1..]);
      assert a == [a[0]] + a[1..] && b == [b[0]] + b[1..];
    }
  }

  lemma {:induction false} CompareAntisymmetric(a: string, b: string)
    ensures Compare(b, a) == Flip(Compare(a, b))
  {
    if a != [] && b != [] && a[0] == b[0] {
      CompareAntisymmetric(a[1..], b[1..]);
    }
  }

  lemma {:induction false} CompareTransitive(a: string, b: string, c: string)
    requires Compare(a, b) != Greater && Compare(b, c) != Greater
    ensures Compare(a, c) != Greater
  {
    if a != [] && b != [] && c != [] && a[0] == b[0] == c[0] {
      CompareTransitive(a[1..], b[1..], c[1..]);
    }
  }
}
