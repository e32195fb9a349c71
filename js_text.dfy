/** Option, used where the source returns `null` or leaves a field `undefined`. */
module Wrappers {
  datatype Option<+T> = None | Some(value: T)
}

/**
 * The JavaScript string built-ins the core relies on, over strings of Unicode
 * scalar values: `trim`, ASCII `toLowerCase`, `includes`, `startsWith`,
 * `lastIndexOf`, `split`, `join`, and `length` counted in UTF-16 code units.
 */
module JsText {

  /** A character matched by `\s` in a JavaScript regular expression; `trim` removes exactly these. */
  predicate IsJsWhitespace(c: char) {
    c == ' ' || c == '\t' || c == '\n' || c == '\r'
    || c as int == 0x0B || c as int == 0x0C || c as int == 0xA0 || c as int == 0x1680
    || (0x2000 <= c as int <= 0x200A)
    || c as int == 0x2028 || c as int == 0x2029 || c as int == 0x202F || c as int == 0x205F
    || c as int == 0x3000 || c as int == 0xFEFF
  }

  /** The end of the run of whitespace of `s` that starts at `i`. */
  function WhitespaceFrom(s: string, i: nat): (j: nat)
    requires i <= |s|
    ensures i <= j <= |s|
    ensures forall k :: i <= k < j ==> IsJsWhitespace(s[k])
    ensures j < |s| ==> !IsJsWhitespace(s[j])
    decreases |s| - i
  {
    if i < |s| && IsJsWhitespace(s[i]) then WhitespaceFrom(s, i + 1) else i
  }

  /** The start of the run of whitespace of `s` that ends at `j`, looking back no further than `lo`. */
  function WhitespaceBefore(s: string, lo: nat, j: nat): (i: nat)
    requires lo <= j <= |s|
    ensures lo <= i <= j
    ensures forall k :: i <= k < j ==> IsJsWhitespace(s[k])
    ensures i > lo ==> !IsJsWhitespace(s[i - 1])
    decreases j
  {
    if j > lo && IsJsWhitespace(s[j - 1]) then WhitespaceBefore(s, lo, j - 1) else j
  }

  /** `s.trimStart()`: drops the leading whitespace and nothing else. */
  function TrimStart(s: string): (r: string)
    ensures |r| <= |s| && r == s[|s| - |r|..]
    ensures r == [] || !IsJsWhitespace(r[0])
    ensures forall i :: 0 <= i < |s| - |r| ==> IsJsWhitespace(s[i])
  {
    s[WhitespaceFrom(s, 0)..]
  }

  /**
   * `r` is `s` with its leading and trailing whitespace cut off: the slice of
   * `s` that starts where the leading run of whitespace ends
   * (`WhitespaceFrom(s, 0)`) and is followed only by whitespace. It neither
   * starts nor ends with whitespace, holds only characters of `s`, and is empty
   * exactly when `s` is all whitespace.
   */
  predicate TrimmedSlice(s: string, r: string) {
    var a := WhitespaceFrom(s, 0);
    && a + |r| <= |s| && r == s[a..a + |r|]
    && (forall i :: 0 <= i < a ==> IsJsWhitespace(s[i]))
    && (forall i :: a + |r| <= i < |s| ==> IsJsWhitespace(s[i]))
    && (r == [] || (!IsJsWhitespace(r[0]) && !IsJsWhitespace(r[|r| - 1])))
    && (forall c :: c in r ==> c in s)
    && (r == [] <==> forall i :: 0 <= i < |s| ==> IsJsWhitespace(s[i]))
  }

  /** `s.trim()`. */
  function Trim(s: string): (r: string)
    ensures TrimmedSlice(s, r)
  {
    var a := WhitespaceFrom(s, 0);
    var b := WhitespaceBefore(s, a, |s|);
    TrimSliceIsTrimmed(s, a, b);
    s[a..b]
  }

  /** The slice between the leading and the trailing whitespace is the trimmed text. */
  lemma TrimSliceIsTrimmed(s: string, a: nat, b: nat)
    requires a == WhitespaceFrom(s, 0) && b == WhitespaceBefore(s, a, |s|)
    ensures TrimmedSlice(s, s[a..b])
  {
    TrimEnds(s, a, b);
    TrimChars(s, a, b);
    TrimEmpty(s, a, b);
    assert s[a..b] == s[a..a + |s[a..b]|];
  }

  /** The trimmed slice neither starts nor ends with whitespace. */
  lemma TrimEnds(s: string, a: nat, b: nat)
    requires a == WhitespaceFrom(s, 0) && b == WhitespaceBefore(s, a, |s|)
    ensures s[a..b] == [] || (!IsJsWhitespace(s[a..b][0]) && !IsJsWhitespace(s[a..b][b - a - 1]))
  {
    if a < b {
      assert s[a..b][0] == s[a] && s[a..b][b - a - 1] == s[b - 1];
    }
  }

  /** The trimmed slice holds only characters of `s`. */
  lemma TrimChars(s: string, a: nat, b: nat)
    requires a <= b <= |s|
    ensures forall c :: c in s[a..b] ==> c in s
  {
    forall c | c in s[a..b] ensures c in s {
      var k :| 0 <= k < b - a && s[a..b][k] == c;
      assert s[a + k] == c;
    }
  }

  /** The trimmed slice is empty exactly when `s` is all whitespace. */
  lemma TrimEmpty(s: string, a: nat, b: nat)
    requires a == WhitespaceFrom(s, 0) && b == WhitespaceBefore(s, a, |s|)
    ensures s[a..b] == [] <==> forall i :: 0 <= i < |s| ==> IsJsWhitespace(s[i])
  {
    if forall i :: 0 <= i < |s| ==> IsJsWhitespace(s[i]) {
      assert a == |s|;
    } else {
      var i :| 0 <= i < |s| && !IsJsWhitespace(s[i]);
      assert a <= i < b;
    }
  }

  /**
   * `a` is `b` with some elements removed and the rest in order: the shape of
   * what `Array.prototype.filter` returns.
   */
  predicate SubsequenceOf<T(==)>(a: seq<T>, b: seq<T>)
    decreases |b|
  {
    if a == [] then true
    else if b == [] then false
    else if a[0] == b[0] then SubsequenceOf(a[1..], b[1..])
    else SubsequenceOf(a, b[1..])
  }

  /** Whether `s` begins with `p` (`s.startsWith(p)`). */
  predicate StartsWith(s: string, p: string)
    ensures StartsWith(s, p) <==> |p| <= |s| && forall i :: 0 <= i < |p| ==> s[i] == p[i]
    ensures StartsWith(s, p) ==> Includes(s, p)
  {
    var b := |p| <= |s| && s[..|p|] == p;
    if b then
      assert OccursAt(s, p, 0);
      b
    else b
  }

  /** ASCII case folding of one character; every other character is left alone. */
  function LowerChar(c: char): (r: char)
    ensures 'A' <= c <= 'Z' ==> 'a' <= r <= 'z'
    ensures !('A' <= c <= 'Z') ==> r == c
  {
    if 'A' <= c <= 'Z' then (c as int + 32) as char else c
  }

  /** `s.toLowerCase()` restricted to ASCII letters. */
  function Lower(s: string): (r: string)
    ensures |r| == |s|
    ensures forall i :: 0 <= i < |s| ==> r[i] == LowerChar(s[i])
    ensures forall i :: 0 <= i < |r| ==> !('A' <= r[i] <= 'Z')
  {
    seq(|s|, i requires 0 <= i < |s| => LowerChar(s[i]))
  }

  /** `needle` occurs in `hay` starting at index `i`. */
  predicate OccursAt(hay: string, needle: string, i: int) {
    0 <= i && i + |needle| <= |hay| && hay[i..i + |needle|] == needle
  }

  /** `hay.includes(needle)`: some index holds an occurrence; the empty needle occurs everywhere. */
  function Includes(hay: string, needle: string): (b: bool)
    ensures b <==> exists i :: OccursAt(hay, needle, i)
    decreases |hay|
  {
    if |needle| > |hay| then
      false
    else if hay[..|needle|] == needle then
      assert OccursAt(hay, needle, 0);
      true
    else
      forall j | 0 <= j
        ensures OccursAt(hay[1..], needle, j) <==> OccursAt(hay, needle, j + 1)
      {
        if j + 1 + |needle| <= |hay| {
          assert hay[1..][j..j + |needle|] == hay[j + 1..j + 1 + |needle|];
        }
      }
      assert forall i :: OccursAt(hay, needle, i) ==> OccursAt(hay[1..], needle, i - 1);
      Includes(hay[1..], needle)
  }

  /**
   * `s.lastIndexOf(c, from)` for a one-character search string and a
   * non-negative `from`: the greatest index at most `from` that holds `c`,
   * or -1 when there is none.
   */
  function LastIndexOf(s: string, c: char, from: nat): (r: int)
    ensures -1 <= r < |s| && r <= from
    ensures r >= 0 ==> s[r] == c
    ensures forall j :: r < j <= from && j < |s| ==> s[j] != c
    decreases from
  {
    if from >= |s| then
      (if s == [] then -1 else LastIndexOf(s, c, |s| - 1))
    else if s[from] == c then from
    else if from == 0 then -1
    else LastIndexOf(s, c, from - 1)
  }

  /** `s.split(sep)` for a one-character separator: the pieces between the separators, in order. */
  function Split(s: string, sep: char): (r: seq<string>)
    ensures |r| >= 1
    ensures forall k :: 0 <= k < |r| ==> sep !in r[k]
    ensures forall k, c :: 0 <= k < |r| && c in r[k] ==> c in s
  {
    if s == [] then [""]
    else
      var rest := Split(s[1..], sep);
      assert forall k, c :: 0 <= k < |rest| && c in rest[k] ==> c in s by {
        forall k, c | 0 <= k < |rest| && c in rest[k] ensures c in s {
          assert c in s[1..];
        }
      }
      if s[0] == sep then [""] + rest
      else
        [[s[0]] + rest[0]] + rest[1..]
  }

  /** `pieces.join(sep)`. */
  function Join(pieces: seq<string>, sep: string): (r: string)
    ensures pieces == [] ==> r == ""
    ensures |pieces| == 1 ==> r == pieces[0]
  {
    if pieces == [] then ""
    else if |pieces| == 1 then pieces[0]
    else pieces[0] + sep + Join(pieces[1..], sep)
  }

  /** Splitting on a character and joining with it again gives back the original string. */
  lemma {:induction false} SplitJoin(s: string, sep: char)
    ensures Join(Split(s, sep), [sep]) == s
  {
    if s != [] {
      var rest := Split(s[1..], sep);
      SplitJoin(s[1..], sep);
      if s[0] == sep {
        assert Split(s, sep) == [""] + rest;
        assert Join([""] + rest, [sep]) == "" + [sep] + Join(rest, [sep]);
      } else {
        var head := [s[0]] + rest[0];
        assert Split(s, sep) == [head] + rest[1..];
        if |rest| == 1 {
          assert rest[0] == s[1..];
        } else {
          assert ([head] + rest[1..])[1..] == rest[1..];
          assert Join(rest, [sep]) == rest[0] + [sep] + Join(rest[1..], [sep]);
        }
      }
    }
  }

  /** The positions of `s` holding a character outside the Basic Multilingual Plane. */
  ghost function AstralIndices(s: string): set<int> {
    set i | 0 <= i < |s| && s[i] as int >= 0x10000
  }

  /** One more character adds one astral position exactly when it is outside the BMP. */
  lemma AstralIndicesSnoc(s: string)
    requires s != []
    ensures |AstralIndices(s)| == |AstralIndices(s[..|s| - 1])| + if s[|s| - 1] as int >= 0x10000 then 1 else 0
  {
    var m := |s| - 1;
    var before := AstralIndices(s[..m]);
    assert AstralIndices(s) == before + (if s[m] as int >= 0x10000 then {m} else {});
    assert m !in before;
  }

  /** `s.length` in JavaScript: the number of UTF-16 code units, two for a character outside the BMP. */
  function Utf16Length(s: string): (n: nat)
    ensures n == |s| + |AstralIndices(s)|
    ensures |s| <= n <= 2 * |s|
    ensures (forall i :: 0 <= i < |s| ==> s[i] as int < 0x10000) ==> n == |s|
  {
    if s == [] then 0
    else
      AstralIndicesSnoc(s);
      Utf16Length(s[..|s| - 1]) + (if s[|s| - 1] as int < 0x10000 then 1 else 2)
  }
}
