/**
 * The string utilities of src/utils/seo.ts: the meta description, keyword
 * extraction, the description of the article schema and breadcrumb numbering.
 */
module Seo {
  import opened Wrappers
  import opened JsText

  /** How many keywords `extractKeywords` keeps. */
  const MAX_KEYWORDS: nat := 10
  const SITE_URL: string := "https://infoiyo.cc"

  // ---------------------------------------------------------------------
  // Markdown stripping for the meta description

  /** The number of leading `c` characters of `s`. */
  function LeadingRun(s: string, c: char): (n: nat)
    ensures n <= |s|
    ensures forall i :: 0 <= i < n ==> s[i] == c
    ensures n < |s| ==> s[n] != c
  {
    if s != [] && s[0] == c then 1 + LeadingRun(s[1..], c) else 0
  }

  /**
   * The global replace of `/#{1,6}\s/` by nothing: at each position a run of
   * one to six '#' followed by whitespace is removed; a longer run only matches
   * from a later position, six characters before its end.
   */
  function StripHeaders(s: string): (r: string)
    ensures |r| <= |s|
    ensures '#' !in s ==> r == s
    decreases |s|
  {
    if s == [] then []
    else
      var n := LeadingRun(s, '#');
      if 1 <= n <= 6 && n < |s| && IsJsWhitespace(s[n]) then StripHeaders(s[n + 1..])
      else [s[0]] + StripHeaders(s[1..])
  }

  /** The first index at or after `from` that holds `c`, or -1. */
  function IndexOf(s: string, c: char, from: nat): (r: int)
    ensures r == -1 || (from <= r < |s| && s[r] == c)
    ensures forall j :: from <= j < |s| && (r == -1 || j < r) ==> s[j] != c
    decreases |s| - from
  {
    if from >= |s| then -1 else if s[from] == c then from else IndexOf(s, c, from + 1)
  }

  /**
   * The global replace of `/\[([^\]]+)\]\([^)]+\)/` by its first group: a
   * link `[text](target)` with non-empty text and target becomes `text`.
   */
  function StripLinks(s: string): (r: string)
    ensures |r| <= |s|
    ensures '[' !in s ==> r == s
    decreases |s|
  {
    if s == [] then []
    else if s[0] == '[' then
      var close := IndexOf(s, ']', 1);
      if close >= 2 && close + 1 < |s| && s[close + 1] == '(' then
        var paren := IndexOf(s, ')', close + 2);
        if paren >= close + 3 then s[1..close] + StripLinks(s[paren + 1..])
        else [s[0]] + StripLinks(s[1..])
      else [s[0]] + StripLinks(s[1..])
    else [s[0]] + StripLinks(s[1..])
  }

  /** The emphasis markers `*`, `_`, `~` and the backquote. */
  predicate IsEmphasis(c: char) {
    c == '*' || c == '_' || c == '~' || c == '`'
  }

  /**
   * The global replace of `/[*_~`]/` by nothing: the markers go, every other
   * character stays, as often as it occurred and in its order.
   */
  function RemoveEmphasis(s: string): (r: string)
    ensures |r| <= |s|
    ensures forall c :: c in r <==> c in s && !IsEmphasis(c)
    ensures forall c :: multiset(r)[c] == if IsEmphasis(c) then 0 else multiset(s)[c]
    ensures SubsequenceOf(r, s)
  {
    if s == [] then []
    else
      var rest := RemoveEmphasis(s[1..]);
      assert s == [s[0]] + s[1..];
      if IsEmphasis(s[0]) then
        assert rest != [] ==> rest[0] in rest;
        rest
      else [s[0]] + rest
  }

  /** The global replace of `/\n/` by a space. */
  function NewlinesToSpaces(s: string): (r: string)
    ensures |r| == |s| && '\n' !in r
    ensures forall i :: 0 <= i < |s| ==> r[i] == if s[i] == '\n' then ' ' else s[i]
    ensures forall c :: c in r && c != ' ' ==> c in s
  {
    var r := seq(|s|, i requires 0 <= i < |s| => if s[i] == '\n' then ' ' else s[i]);
    assert forall c :: c in r && c != ' ' ==> c in s by {
      forall c | c in r && c != ' ' ensures c in s {
        var i :| 0 <= i < |r| && r[i] == c;
        assert s[i] == c;
      }
    }
    r
  }

  /**
   * The replace chain of `generateMetaDescription` before `trim()`: headers,
   * links, emphasis markers and newlines are gone.
   */
  function Unmarked(content: string): (x: string)
    ensures |x| <= |content|
    ensures forall c :: c in x ==> !IsEmphasis(c) && c != '\n'
  {
    var e := RemoveEmphasis(StripLinks(StripHeaders(content)));
    var n := NewlinesToSpaces(e);
    assert forall c :: c in n ==> !IsEmphasis(c) && c != '\n';
    n
  }

  /** The text `generateMetaDescription` works on: the replace chain and `trim()`. */
  function PlainText(content: string): (t: string)
    ensures |t| <= |content|
    ensures t == [] || (!IsJsWhitespace(t[0]) && !IsJsWhitespace(t[|t| - 1]))
  {
    var x := Unmarked(content);
    TrimShortens(content, x, Trim(x));
    Trim(x)
  }

  /** The trimmed text is no longer than the text and has no whitespace at either end. */
  lemma TrimShortens(content: string, x: string, t: string)
    requires |x| <= |content|
    requires TrimmedSlice(x, t)
    ensures |t| <= |content|
    ensures t == [] || (!IsJsWhitespace(t[0]) && !IsJsWhitespace(t[|t| - 1]))
  {
  }

  /** Before any truncation the text holds no emphasis marker and no newline, and is trimmed. */
  lemma PlainTextIsClean(content: string)
    ensures var t := PlainText(content);
      && (forall c :: c in t ==> !IsEmphasis(c) && c != '\n')
      && (t == [] || (!IsJsWhitespace(t[0]) && !IsJsWhitespace(t[|t| - 1])))
  {
    var x := Unmarked(content);
    TrimKeepsChars(x, Trim(x));
  }

  /** Every character of the trimmed text is a character of the text. */
  lemma TrimKeepsChars(x: string, t: string)
    requires TrimmedSlice(x, t)
    ensures forall c :: c in t ==> c in x
  {
  }

  /**
   * `generateMetaDescription(content, maxLength)`: the plain text when it fits,
   * else its prefix up to the last space at an index at most `maxLength`
   * (nothing when there is no such space), followed by "...".
   */
  method GenerateMetaDescription(content: string, maxLength: nat) returns (plainText: string)
    ensures var t := PlainText(content); |t| <= maxLength ==> plainText == t
    ensures var t := PlainText(content);
      |t| > maxLength ==>
        var k := |plainText| - 3;
        && |plainText| >= 3 && plainText[k..] == "..."
        && k <= maxLength && plainText[..k] == t[..k]
        && (k > 0 ==> t[k] == ' ')
        && forall j :: k < j <= maxLength ==> t[j] != ' '
    ensures |plainText| <= maxLength + 3
  {
    plainText := PlainText(content);
    plainText := TruncateAtWord(plainText, maxLength);
  }

  /** The cut of `generateMetaDescription`: a text longer than `maxLength` is cut after a whole word. */
  method TruncateAtWord(text: string, maxLength: nat) returns (d: string)
    ensures |text| <= maxLength ==> d == text
    ensures |text| > maxLength ==>
        var k := |d| - 3;
        && |d| >= 3 && d[k..] == "..."
        && k <= maxLength && d[..k] == text[..k]
        && (k > 0 ==> text[k] == ' ')
        && forall j :: k < j <= maxLength ==> text[j] != ' '
    ensures |d| <= maxLength + 3
  {
    d := text;
    if |d| > maxLength {
      var cut := LastIndexOf(d, ' ', maxLength);
      var prefix := if cut < 0 then "" else d[..cut];
      d := prefix + "...";
      assert d[..|prefix|] == prefix;
    }
  }

  // ---------------------------------------------------------------------
  // Keyword extraction

  /** The characters `[a-z0-9]` that survive the cleaning step. */
  predicate IsKeywordChar(c: char) {
    'a' <= c <= 'z' || '0' <= c <= '9'
  }

  /** The words `extractKeywords` never reports. */
  const COMMON_WORDS: set<string> := {"the", "be", "to", "of", "and", "a", "in", "that", "have", "i",
    "it", "for", "not", "on", "with", "he", "as", "you", "do", "at"}

  /** The global replace of `/[^a-z0-9\s]/` by a space. */
  function ReplaceSymbols(s: string): (r: string)
    ensures |r| == |s|
    ensures forall i :: 0 <= i < |s| ==> r[i] == if IsKeywordChar(s[i]) || IsJsWhitespace(s[i]) then s[i] else ' '
    ensures forall i :: 0 <= i < |r| ==> IsKeywordChar(r[i]) || IsJsWhitespace(r[i])
  {
    seq(|s|, i requires 0 <= i < |s| => if IsKeywordChar(s[i]) || IsJsWhitespace(s[i]) then s[i] else ' ')
  }

  /** The characters of `s` that are not whitespace, in order. */
  function NonBlank(s: string): (r: string)
    ensures |r| <= |s|
  {
    if s == [] then []
    else (if IsJsWhitespace(s[0]) then [] else [s[0]]) + NonBlank(s[1..])
  }

  /** Leading whitespace contributes nothing to `NonBlank`. */
  lemma {:induction false} NonBlankSkipsWhitespace(s: string, k: nat)
    requires k <= |s| && forall i :: 0 <= i < k ==> IsJsWhitespace(s[i])
    ensures NonBlank(s[k..]) == NonBlank(s)
    decreases k
  {
    if k > 0 {
      assert s[1..][k - 1..] == s[k..];
      assert forall i :: 0 <= i < k - 1 ==> IsJsWhitespace(s[1..][i]) by {
        forall i | 0 <= i < k - 1 ensures IsJsWhitespace(s[1..][i]) {
          assert s[1..][i] == s[i + 1];
        }
      }
      NonBlankSkipsWhitespace(s[1..], k - 1);
    }
  }

  /**
   * `r` is `s` with each run of whitespace replaced by one space: `r` holds
   * only spaces and characters of `s` that are not whitespace, never two
   * adjacent spaces, and the characters of `s` that are not whitespace, in
   * their order; it is empty iff `s` is, starts with a space iff `s` starts
   * with whitespace (and otherwise with the same character), and equals `s`
   * when `s` has no whitespace.
   */
  predicate CollapsedForm(s: string, r: string) {
    && (forall i :: 0 <= i < |r| ==> r[i] == ' ' || (!IsJsWhitespace(r[i]) && r[i] in s))
    && |r| <= |s| && (r == [] <==> s == [])
    && (s != [] ==> r[0] == if IsJsWhitespace(s[0]) then ' ' else s[0])
    && (forall i :: 0 <= i < |r| - 1 && r[i] == ' ' ==> r[i + 1] != ' ')
    && NonBlank(r) == NonBlank(s)
    && ((forall i :: 0 <= i < |s| ==> !IsJsWhitespace(s[i])) ==> r == s)
  }

  /** The global replace of `/\s+/` by one space. */
  function CollapseWhitespace(s: string): (r: string)
    ensures CollapsedForm(s, r)
    decreases |s|
  {
    if s == [] then []
    else if IsJsWhitespace(s[0]) then
      var rest := TrimStart(s);
      assert |rest| < |s|;
      var r := [' '] + CollapseWhitespace(rest);
      CollapseAfterSpace(s, rest, CollapseWhitespace(rest), r);
      r
    else
      var r := [s[0]] + CollapseWhitespace(s[1..]);
      CollapseAfterChar(s, CollapseWhitespace(s[1..]), r);
      r
  }

  /**
   * The global replace of `/\s+/` by one space read one character at a time:
   * a whitespace character becomes a space when it starts a run (the previous
   * character, `afterSpace`, was not whitespace) and is dropped otherwise;
   * every other character is kept.
   */
  function CollapseRef(s: string, afterSpace: bool): string {
    if s == [] then []
    else if IsJsWhitespace(s[0]) then (if afterSpace then [] else [' ']) + CollapseRef(s[1..], true)
    else [s[0]] + CollapseRef(s[1..], false)
  }

  /** Inside a run of whitespace the rest of the run adds nothing. */
  lemma {:induction false} CollapseRefSkipsRun(s: string, i: nat, k: nat)
    requires i <= k <= |s| && forall j :: i <= j < k ==> IsJsWhitespace(s[j])
    ensures CollapseRef(s[i..], true) == CollapseRef(s[k..], true)
    decreases k - i
  {
    if i < k {
      assert s[i..][0] == s[i] && s[i..][1..] == s[i + 1..];
      CollapseRefSkipsRun(s, i + 1, k);
    }
  }

  /**
   * `CollapseWhitespace` is the one-character-at-a-time replace: each maximal
   * run of whitespace becomes exactly one space, at its place between the
   * surrounding characters, and nothing else changes.
   */
  lemma {:induction false} CollapseMatchesReference(s: string)
    ensures CollapseWhitespace(s) == CollapseRef(s, false)
    decreases |s|
  {
    if s != [] {
      if IsJsWhitespace(s[0]) {
        CollapseRefRun(s);
        CollapseMatchesReference(TrimStart(s));
      } else {
        CollapseMatchesReference(s[1..]);
      }
    }
  }

  /** A leading run of whitespace gives one space, then the reference replace of what follows it. */
  lemma CollapseRefRun(s: string)
    requires s != [] && IsJsWhitespace(s[0])
    ensures CollapseRef(s, false) == [' '] + CollapseRef(TrimStart(s), false)
  {
    var rest := TrimStart(s);
    var k := |s| - |rest|;
    assert CollapseRef(s, false) == [' '] + CollapseRef(s[1..], true);
    CollapseRefSkipsRun(s, 1, k);
    assert s[k..] == rest;
    if rest != [] {
      assert CollapseRef(rest, true) == [rest[0]] + CollapseRef(rest[1..], false);
    }
  }

  /** Two words separated by whitespace stay two words separated by one space. */
  lemma CollapseKeepsWordBoundary()
    ensures CollapseWhitespace("a \t b") == "a b"
  {
    var s := "a \t b";
    assert s[1..] == " \t b" && s[1..][1..] == "\t b" && s[1..][1..][1..] == " b";
    assert s[1..][1..][1..][1..] == "b" && "b"[1..] == "";
    assert CollapseRef(" b", true) == "b";
    assert CollapseRef(" \t b", false) == " b";
    assert CollapseRef(s, false) == "a b";
    CollapseMatchesReference(s);
  }

  /** The whitespace step of `CollapseWhitespace`: a space, then the collapsed text after the run. */
  lemma CollapseAfterSpace(s: string, rest: string, tail: string, r: string)
    requires s != [] && IsJsWhitespace(s[0])
    requires |rest| < |s| && rest == s[|s| - |rest|..] && (rest == [] || !IsJsWhitespace(rest[0]))
    requires forall i :: 0 <= i < |s| - |rest| ==> IsJsWhitespace(s[i])
    requires CollapsedForm(rest, tail)
    requires r == [' '] + tail
    ensures CollapsedForm(s, r)
  {
    SpaceThenCharsOf(s, rest, tail, r);
    assert rest != [] ==> tail[0] != ' ';
    SpaceThenNoDoubleSpace(tail, r);
    NonBlankSkipsWhitespace(s, |s| - |rest|);
    assert r[1..] == tail;
  }

  /** A space in front of a collapsed suffix of `s` holds only spaces and characters of `s`. */
  lemma SpaceThenCharsOf(s: string, rest: string, tail: string, r: string)
    requires |rest| <= |s| && rest == s[|s| - |rest|..]
    requires forall i :: 0 <= i < |tail| ==> tail[i] == ' ' || (!IsJsWhitespace(tail[i]) && tail[i] in rest)
    requires r == [' '] + tail
    ensures forall i :: 0 <= i < |r| ==> r[i] == ' ' || (!IsJsWhitespace(r[i]) && r[i] in s)
  {
    forall i | 1 <= i < |r| ensures r[i] == ' ' || (!IsJsWhitespace(r[i]) && r[i] in s) {
      assert r[i] == tail[i - 1];
      if r[i] != ' ' {
        var k :| 0 <= k < |rest| && rest[k] == r[i];
        assert s[|s| - |rest| + k] == r[i];
      }
    }
  }

  /** A space in front of a text without double spaces that does not start with one has none either. */
  lemma SpaceThenNoDoubleSpace(tail: string, r: string)
    requires tail == [] || tail[0] != ' '
    requires forall i :: 0 <= i < |tail| - 1 && tail[i] == ' ' ==> tail[i + 1] != ' '
    requires r == [' '] + tail
    ensures forall i :: 0 <= i < |r| - 1 && r[i] == ' ' ==> r[i + 1] != ' '
  {
    forall i | 0 <= i < |r| - 1 && r[i] == ' ' ensures r[i + 1] != ' ' {
      assert r[i + 1] == tail[i];
      if i > 0 {
        assert tail[i - 1] == ' ';
      }
    }
  }

  /** The step of `CollapseWhitespace` at a character that is not whitespace: it is kept. */
  lemma CollapseAfterChar(s: string, tail: string, r: string)
    requires s != [] && !IsJsWhitespace(s[0])
    requires CollapsedForm(s[1..], tail)
    requires r == [s[0]] + tail
    ensures CollapsedForm(s, r)
  {
    assert r[1..] == tail;
    assert s == [s[0]] + s[1..];
    forall i | 1 <= i < |r| ensures r[i] == ' ' || (!IsJsWhitespace(r[i]) && r[i] in s) {
      assert r[i] == tail[i - 1];
    }
    forall i | 0 <= i < |r| - 1 && r[i] == ' ' ensures r[i + 1] != ' ' {
      assert r[i + 1] == tail[i];
      assert i > 0;
      assert tail[i - 1] == ' ';
    }
    if forall i :: 0 <= i < |s| ==> !IsJsWhitespace(s[i]) {
      assert forall i :: 0 <= i < |s| - 1 ==> !IsJsWhitespace(s[1..][i]) by {
        forall i | 0 <= i < |s| - 1 ensures !IsJsWhitespace(s[1..][i]) {
          assert s[1..][i] == s[i + 1];
        }
      }
    }
  }

  /** The lower-cased, cleaned and trimmed text of `${title} ${content}`. */
  function CleanText(title: string, content: string): (t: string)
    ensures forall c :: c in t ==> c == ' ' || IsKeywordChar(c)
    ensures t == [] || (t[0] != ' ' && t[|t| - 1] != ' ')
    ensures |t| <= |title| + 1 + |content|
  {
    var x := ReplaceSymbols(Lower(title + " " + content));
    var y := CollapseWhitespace(x);
    CollapsedSymbolChars(x, y);
    TrimmedKeywordText(y, Trim(y));
    Trim(y)
  }

  /** Collapsing text of `[a-z0-9]` and whitespace leaves `[a-z0-9]` and spaces. */
  lemma CollapsedSymbolChars(x: string, y: string)
    requires forall i :: 0 <= i < |x| ==> IsKeywordChar(x[i]) || IsJsWhitespace(x[i])
    requires CollapsedForm(x, y)
    ensures forall c :: c in y ==> c == ' ' || IsKeywordChar(c)
    ensures |y| <= |x|
  {
    forall c | c in y ensures c == ' ' || IsKeywordChar(c) {
      var i :| 0 <= i < |y| && y[i] == c;
      if c != ' ' {
        var j :| 0 <= j < |x| && x[j] == c;
      }
    }
  }

  /** Trimming text of `[a-z0-9]` and spaces keeps those characters and leaves no space at either end. */
  lemma TrimmedKeywordText(y: string, t: string)
    requires forall c :: c in y ==> c == ' ' || IsKeywordChar(c)
    requires TrimmedSlice(y, t)
    ensures forall c :: c in t ==> c == ' ' || IsKeywordChar(c)
    ensures t == [] || (t[0] != ' ' && t[|t| - 1] != ' ')
    ensures |t| <= |y|
  {
  }

  /** The word filter: longer than two characters and not a common word. */
  predicate IsCandidate(w: string) {
    |w| > 2 && w !in COMMON_WORDS
  }

  /**
   * The word filter applied to the split text: every candidate word is kept as
   * often as it occurs, in text order, and nothing else.
   */
  function FilterWords(ws: seq<string>): (r: seq<string>)
    ensures forall w :: w in r <==> w in ws && IsCandidate(w)
    ensures forall w :: multiset(r)[w] == if IsCandidate(w) then multiset(ws)[w] else 0
    ensures SubsequenceOf(r, ws)
  {
    if ws == [] then []
    else
      var rest := FilterWords(ws[1..]);
      assert ws == [ws[0]] + ws[1..];
      if IsCandidate(ws[0]) then [ws[0]] + rest
      else
        assert rest != [] ==> rest[0] in rest;
        rest
  }

  /** The words counted by `extractKeywords`, in text order. */
  function Words(title: string, content: string): (ws: seq<string>)
    ensures forall w :: w in ws ==> IsCandidate(w)
  {
    FilterWords(Split(CleanText(title, content), ' '))
  }

  /** A word that may be reported: more than two of `[a-z0-9]` and not common. */
  predicate IsValidKeyword(w: string) {
    |w| > 2 && w !in COMMON_WORDS && forall i :: 0 <= i < |w| ==> IsKeywordChar(w[i])
  }

  /** Splitting a text of spaces and `[a-z0-9]` at spaces gives pieces of `[a-z0-9]` only. */
  lemma PiecesAreKeywordChars(t: string)
    requires forall c :: c in t ==> c == ' ' || IsKeywordChar(c)
    ensures forall w :: w in Split(t, ' ') ==> forall i :: 0 <= i < |w| ==> IsKeywordChar(w[i])
  {
    var pieces := Split(t, ' ');
    forall w | w in pieces ensures forall i :: 0 <= i < |w| ==> IsKeywordChar(w[i]) {
      var k :| 0 <= k < |pieces| && pieces[k] == w;
      forall i | 0 <= i < |w| ensures IsKeywordChar(w[i]) {
        assert w[i] in pieces[k];
      }
    }
  }

  /** Every counted word is a valid keyword. */
  lemma WordsAreValid(title: string, content: string)
    ensures forall w :: w in Words(title, content) ==> IsValidKeyword(w)
  {
    var t := CleanText(title, content);
    PiecesAreKeywordChars(t);
  }

  /** How often `w` occurs in `ws`. */
  function Occurrences(ws: seq<string>, w: string): nat {
    if ws == [] then 0
    else Occurrences(ws[..|ws| - 1], w) + (if ws[|ws| - 1] == w then 1 else 0)
  }

  lemma OccurrencesSnoc(ws: seq<string>, x: string)
    ensures forall w :: Occurrences(ws + [x], w) == Occurrences(ws, w) + (if x == w then 1 else 0)
    ensures FirstOccurrences(ws + [x]) == if x in FirstOccurrences(ws) then FirstOccurrences(ws) else FirstOccurrences(ws) + [x]
  {
    assert (ws + [x])[..|ws|] == ws;
  }

  lemma {:induction false} OccurrencesAbsent(ws: seq<string>, w: string)
    requires w !in ws
    ensures Occurrences(ws, w) == 0
  {
    if ws != [] {
      OccurrencesAbsent(ws[..|ws| - 1], w);
    }
  }

  /** The distinct words of `ws` in order of first occurrence: the insertion order of the count Map. */
  function FirstOccurrences(ws: seq<string>): (r: seq<string>)
    ensures forall w :: w in r <==> w in ws
    ensures forall i, j :: 0 <= i < j < |r| ==> r[i] != r[j]
  {
    if ws == [] then []
    else
      var d := FirstOccurrences(ws[..|ws| - 1]);
      assert ws == ws[..|ws| - 1] + [ws[|ws| - 1]];
      if ws[|ws| - 1] in d then d else d + [ws[|ws| - 1]]
  }

  /** One `[word, count]` pair of the Map's entries. */
  datatype Entry = Entry(word: string, count: nat)

  /** The entries of the word-count map: each distinct word with its count, first occurrence first. */
  function Entries(ws: seq<string>): (r: seq<Entry>)
    ensures |r| == |FirstOccurrences(ws)|
    ensures forall i :: 0 <= i < |r| ==> r[i] == Entry(FirstOccurrences(ws)[i], Occurrences(ws, FirstOccurrences(ws)[i]))
  {
    var d := FirstOccurrences(ws);
    seq(|d|, i requires 0 <= i < |d| => Entry(d[i], Occurrences(ws, d[i])))
  }

  /** The length of the longest prefix of `t` whose counts are all at least `c`. */
  function PrefixAtLeast(t: seq<Entry>, c: nat): (p: nat)
    ensures p <= |t|
    ensures forall i :: 0 <= i < p ==> t[i].count >= c
    ensures p < |t| ==> t[p].count < c
  {
    if t != [] && t[0].count >= c then 1 + PrefixAtLeast(t[1..], c) else 0
  }

  /** Stable insertion: `x` goes after every entry whose count is at least its own. */
  function InsertByCount(x: Entry, t: seq<Entry>): (r: seq<Entry>)
    ensures multiset(r) == multiset(t) + multiset{x}
  {
    var p := PrefixAtLeast(t, x.count);
    assert t == t[..p] + t[p..];
    t[..p] + [x] + t[p..]
  }

  /**
   * The sort of the counted entries by decreasing count, stable
   * (Array.prototype.sort is stable), here an insertion sort.
   */
  function SortByCount(s: seq<Entry>): (r: seq<Entry>)
    ensures multiset(r) == multiset(s)
  {
    if s == [] then []
    else
      assert s == s[..|s| - 1] + [s[|s| - 1]];
      InsertByCount(s[|s| - 1], SortByCount(s[..|s| - 1]))
  }

  /** Counts never increase along the sequence. */
  predicate NonIncreasing(r: seq<Entry>) {
    forall i, j :: 0 <= i < j < |r| ==> r[i].count >= r[j].count
  }

  /** The entries with count `c`, in order. */
  function WithCount(s: seq<Entry>, c: nat): (r: seq<Entry>)
    ensures forall e :: e in r ==> e in s && e.count == c
  {
    if s == [] then []
    else if s[|s| - 1].count == c then WithCount(s[..|s| - 1], c) + [s[|s| - 1]]
    else WithCount(s[..|s| - 1], c)
  }

  lemma {:induction false} WithCountAppend(a: seq<Entry>, b: seq<Entry>, c: nat)
    ensures WithCount(a + b, c) == WithCount(a, c) + WithCount(b, c)
    decreases |b|
  {
    if b != [] {
      assert (a + b)[..|a + b| - 1] == a + b[..|b| - 1];
      WithCountAppend(a, b[..|b| - 1], c);
    } else {
      assert a + b == a;
    }
  }

  lemma WithCountNone(s: seq<Entry>, c: nat)
    requires forall i :: 0 <= i < |s| ==> s[i].count != c
    ensures WithCount(s, c) == []
  {
    if s != [] {
      WithCountNone(s[..|s| - 1], c);
    }
  }

  /** Where insertion puts each entry: the prefix, then `x`, then the rest shifted by one. */
  lemma InsertByCountAt(x: Entry, t: seq<Entry>)
    ensures var p := PrefixAtLeast(t, x.count); var r := InsertByCount(x, t);
      && |r| == |t| + 1
      && (forall i :: 0 <= i < p ==> r[i] == t[i])
      && r[p] == x
      && (forall i :: p < i < |r| ==> r[i] == t[i - 1])
  {
  }

  /** In a non-increasing sequence every entry after the insertion point counts less than `x`. */
  lemma BelowAfterPrefix(x: Entry, t: seq<Entry>)
    requires NonIncreasing(t)
    ensures forall i :: PrefixAtLeast(t, x.count) <= i < |t| ==> t[i].count < x.count
  {
    var p := PrefixAtLeast(t, x.count);
    if p < |t| {
      forall i | p <= i < |t| ensures t[i].count < x.count {
        assert t[i].count <= t[p].count;
      }
    }
  }

  lemma InsertKeepsOrder(x: Entry, t: seq<Entry>)
    requires NonIncreasing(t)
    ensures NonIncreasing(InsertByCount(x, t))
  {
    var p := PrefixAtLeast(t, x.count);
    var r := InsertByCount(x, t);
    InsertByCountAt(x, t);
    BelowAfterPrefix(x, t);
    forall i, j | 0 <= i < j < |r| ensures r[i].count >= r[j].count {
      if j < p {
        assert r[i] == t[i] && r[j] == t[j];
      } else if j == p {
        assert r[i] == t[i];
      } else if i < p {
        assert r[i] == t[i] && r[j] == t[j - 1];
      } else if i == p {
        assert r[j] == t[j - 1];
      } else {
        assert r[i] == t[i - 1] && r[j] == t[j - 1];
      }
    }
  }

  /** A single entry filtered by count. */
  lemma WithCountSingle(x: Entry, c: nat)
    ensures WithCount([x], c) == if x.count == c then [x] else []
  {
    assert [x][..0] == [];
  }

  /** Filtering by count distributes over the three parts of an insertion. */
  lemma InsertWithCountParts(x: Entry, t: seq<Entry>, c: nat)
    ensures var p := PrefixAtLeast(t, x.count);
      && WithCount(InsertByCount(x, t), c) == WithCount(t[..p], c) + WithCount([x], c) + WithCount(t[p..], c)
      && WithCount(t, c) == WithCount(t[..p], c) + WithCount(t[p..], c)
  {
    var p := PrefixAtLeast(t, x.count);
    var a, b := t[..p], t[p..];
    assert InsertByCount(x, t) == (a + [x]) + b;
    assert t == a + b;
    WithCountAppend(a + [x], b, c);
    WithCountAppend(a, [x], c);
    WithCountAppend(a, b, c);
  }

  /** Nothing after the insertion point has the inserted entry's count. */
  lemma NoneAfterPrefix(x: Entry, t: seq<Entry>)
    requires NonIncreasing(t)
    ensures WithCount(t[PrefixAtLeast(t, x.count)..], x.count) == []
  {
    var b := t[PrefixAtLeast(t, x.count)..];
    BelowAfterPrefix(x, t);
    assert forall i :: 0 <= i < |b| ==> b[i].count < x.count;
    WithCountNone(b, x.count);
  }

  /** Sequence algebra for the step below: `a + x + b` is `(a + b) + x` when `b` is empty or `x` is. */
  lemma Recombine(r: seq<Entry>, t: seq<Entry>, a: seq<Entry>, x: seq<Entry>, b: seq<Entry>)
    requires r == a + x + b && t == a + b
    requires x == [] || b == []
    ensures r == t + x
  {
  }

  /** Insertion adds `x` at the end of its count class, given that no later entry shares its count. */
  lemma InsertWithCountFrom(x: Entry, t: seq<Entry>, c: nat)
    requires x.count == c ==> WithCount(t[PrefixAtLeast(t, x.count)..], c) == []
    ensures WithCount(InsertByCount(x, t), c) == WithCount(t, c) + (if x.count == c then [x] else [])
  {
    var p := PrefixAtLeast(t, x.count);
    InsertWithCountParts(x, t, c);
    WithCountSingle(x, c);
    Recombine(WithCount(InsertByCount(x, t), c), WithCount(t, c),
              WithCount(t[..p], c), WithCount([x], c), WithCount(t[p..], c));
  }

  lemma InsertWithCount(x: Entry, t: seq<Entry>, c: nat)
    requires NonIncreasing(t)
    ensures WithCount(InsertByCount(x, t), c) == WithCount(t, c) + (if x.count == c then [x] else [])
  {
    if x.count == c {
      NoneAfterPrefix(x, t);
    }
    InsertWithCountFrom(x, t, c);
  }

  /** The sort orders by decreasing count. */
  lemma {:induction false} SortByCountOrders(s: seq<Entry>)
    ensures NonIncreasing(SortByCount(s))
  {
    if s != [] {
      SortByCountOrders(s[..|s| - 1]);
      InsertKeepsOrder(s[|s| - 1], SortByCount(s[..|s| - 1]));
    }
  }

  /** The sort is stable: the entries of any one count keep their relative order. */
  lemma {:induction false} SortByCountStable(s: seq<Entry>, c: nat)
    ensures WithCount(SortByCount(s), c) == WithCount(s, c)
  {
    if s != [] {
      var init := s[..|s| - 1];
      SortByCountStable(init, c);
      SortByCountOrders(init);
      InsertWithCount(s[|s| - 1], SortByCount(init), c);
    }
  }

  /** The entries the keywords are taken from: the first MAX_KEYWORDS of the sorted entries. */
  function TopEntries(ws: seq<string>): (r: seq<Entry>)
    ensures |r| <= MAX_KEYWORDS
  {
    var sorted := SortByCount(Entries(ws));
    sorted[..if |sorted| < MAX_KEYWORDS then |sorted| else MAX_KEYWORDS]
  }

  /** The keywords reported for the counted words `ws`, before joining. */
  function KeywordsOf(ws: seq<string>): (k: seq<string>)
    ensures |k| == |TopEntries(ws)|
    ensures forall i :: 0 <= i < |k| ==> k[i] == TopEntries(ws)[i].word
  {
    var top := TopEntries(ws);
    seq(|top|, i requires 0 <= i < |top| => top[i].word)
  }

  /** The words of `extractKeywords`' result, before joining. */
  function TopKeywords(title: string, content: string): (k: seq<string>)
    ensures |k| <= MAX_KEYWORDS
  {
    KeywordsOf(Words(title, content))
  }

  lemma EntriesFacts(ws: seq<string>)
    ensures forall e :: e in Entries(ws) ==> e.word in ws && e.count == Occurrences(ws, e.word)
    ensures forall i, j :: 0 <= i < j < |Entries(ws)| ==> Entries(ws)[i].word != Entries(ws)[j].word
    ensures forall w :: w in ws ==> Entry(w, Occurrences(ws, w)) in Entries(ws)
  {
    var d := FirstOccurrences(ws);
    forall w | w in ws ensures Entry(w, Occurrences(ws, w)) in Entries(ws) {
      var i :| 0 <= i < |d| && d[i] == w;
      assert Entries(ws)[i] == Entry(w, Occurrences(ws, w));
    }
  }

  /** Sorting neither adds nor loses an entry. */
  lemma SortByCountMembers(s: seq<Entry>)
    ensures forall e :: e in SortByCount(s) <==> e in s
  {
    var r := SortByCount(s);
    assert forall e :: e in r <==> e in multiset(r);
    assert forall e :: e in s <==> e in multiset(s);
  }

  /** Distinct words, pairwise. */
  predicate DistinctWords(s: seq<Entry>) {
    forall i, j :: 0 <= i < j < |s| ==> s[i].word != s[j].word
  }

  lemma InsertDistinct(x: Entry, t: seq<Entry>)
    requires DistinctWords(t)
    requires forall e :: e in t ==> e.word != x.word
    ensures DistinctWords(InsertByCount(x, t))
  {
    var p := PrefixAtLeast(t, x.count);
    var r := InsertByCount(x, t);
    assert forall i :: 0 <= i < |r| ==> r[i] == if i < p then t[i] else if i == p then x else t[i - 1];
    forall i, j | 0 <= i < j < |r| ensures r[i].word != r[j].word {
      if j == p {
        assert r[i] in t;
      } else if i == p {
        assert r[j] in t;
      }
    }
  }

  /** Sorting keeps the entries' words pairwise distinct. */
  lemma {:induction false} SortByCountDistinct(s: seq<Entry>)
    requires DistinctWords(s)
    ensures DistinctWords(SortByCount(s))
  {
    if s != [] {
      var init := s[..|s| - 1];
      var x := s[|s| - 1];
      SortByCountDistinct(init);
      SortByCountMembers(init);
      assert forall e :: e in init ==> e.word != x.word;
      InsertDistinct(x, SortByCount(init));
    }
  }

  /** The keywords are the words of the first sorted entries, and those entries are entries of `ws`. */
  lemma KeywordsAreTopWords(ws: seq<string>)
    ensures var k := KeywordsOf(ws); var sorted := SortByCount(Entries(ws));
      && |k| <= |sorted|
      && forall i :: 0 <= i < |k| ==> k[i] == sorted[i].word && sorted[i] in Entries(ws)
  {
    SortByCountMembers(Entries(ws));
  }

  /** At most ten keywords, pairwise distinct, each a word of `ws`. */
  lemma KeywordsDistinct(ws: seq<string>)
    ensures var k := KeywordsOf(ws);
      && |k| <= MAX_KEYWORDS
      && (forall i, j :: 0 <= i < j < |k| ==> k[i] != k[j])
      && (forall i :: 0 <= i < |k| ==> k[i] in ws)
  {
    EntriesFacts(ws);
    SortByCountDistinct(Entries(ws));
    KeywordsAreTopWords(ws);
  }

  /** The keywords come in non-increasing order of frequency. */
  lemma KeywordsByFrequency(ws: seq<string>)
    ensures var k := KeywordsOf(ws);
      forall i, j :: 0 <= i < j < |k| ==> Occurrences(ws, k[i]) >= Occurrences(ws, k[j])
  {
    EntriesFacts(ws);
    SortByCountOrders(Entries(ws));
    KeywordsAreTopWords(ws);
  }

  /** A word left out is reported only because ten words at least as frequent were. */
  lemma KeywordsComplete(ws: seq<string>)
    ensures var k := KeywordsOf(ws);
      forall w :: w in ws && w !in k ==>
        |k| == MAX_KEYWORDS && forall i :: 0 <= i < |k| ==> Occurrences(ws, k[i]) >= Occurrences(ws, w)
  {
    var es := Entries(ws);
    var sorted := SortByCount(es);
    var k := KeywordsOf(ws);
    EntriesFacts(ws);
    SortByCountOrders(es);
    SortByCountMembers(es);
    KeywordsAreTopWords(ws);
    forall w | w in ws && w !in k
      ensures |k| == MAX_KEYWORDS && forall i :: 0 <= i < |k| ==> Occurrences(ws, k[i]) >= Occurrences(ws, w)
    {
      var e := Entry(w, Occurrences(ws, w));
      var j :| 0 <= j < |sorted| && sorted[j] == e;
      assert j >= |k|;
    }
  }

  /**
   * What `extractKeywords` promises about the counted words `ws`: at most ten
   * distinct keywords, each occurring in `ws`, in non-increasing order of
   * frequency, and no omitted word more frequent than a reported one.
   */
  lemma KeywordsRanked(ws: seq<string>)
    ensures var k := KeywordsOf(ws);
      && |k| <= MAX_KEYWORDS
      && (forall i, j :: 0 <= i < j < |k| ==> k[i] != k[j])
      && (forall i :: 0 <= i < |k| ==> k[i] in ws)
      && (forall i, j :: 0 <= i < j < |k| ==> Occurrences(ws, k[i]) >= Occurrences(ws, k[j]))
      && (forall w :: w in ws && w !in k ==>
            |k| == MAX_KEYWORDS && forall i :: 0 <= i < |k| ==> Occurrences(ws, k[i]) >= Occurrences(ws, w))
  {
    KeywordsDistinct(ws);
    KeywordsByFrequency(ws);
    KeywordsComplete(ws);
  }

  /** Every reported keyword is more than two of `[a-z0-9]` and not a common word. */
  lemma KeywordsAreValid(title: string, content: string)
    ensures forall w :: w in TopKeywords(title, content) ==> IsValidKeyword(w)
  {
    var ws := Words(title, content);
    WordsAreValid(title, content);
    KeywordsRanked(ws);
  }

  /**
   * Ties keep first-occurrence order: among the reported entries, those of any
   * one count are a prefix of the entries of that count in the order their
   * words first appear.
   */
  lemma KeywordTiesInFirstOccurrenceOrder(ws: seq<string>, c: nat)
    ensures WithCount(TopEntries(ws), c) <= WithCount(Entries(ws), c)
  {
    var sorted := SortByCount(Entries(ws));
    var top := TopEntries(ws);
    assert sorted == top + sorted[|top|..];
    WithCountAppend(top, sorted[|top|..], c);
    SortByCountStable(Entries(ws), c);
  }

  /** The counting loop's state after the words `seen`: key order and counts. */
  ghost predicate Counted(seen: seq<string>, order: seq<string>, wordCount: map<string, nat>) {
    && order == FirstOccurrences(seen)
    && (forall w :: w in wordCount <==> w in seen)
    && (forall w :: w in wordCount ==> wordCount[w] == Occurrences(seen, w))
  }

  /** One iteration of the counting loop keeps `Counted`: a word seen before gets one more. */
  lemma CountStepSeen(seen: seq<string>, w: string, order: seq<string>, wordCount: map<string, nat>)
    requires Counted(seen, order, wordCount) && w in wordCount
    ensures Counted(seen + [w], order, wordCount[w := wordCount[w] + 1])
  {
    OccurrencesSnoc(seen, w);
  }

  /** One iteration of the counting loop keeps `Counted`: a new word is appended to the key order with count 1. */
  lemma CountStepNew(seen: seq<string>, w: string, order: seq<string>, wordCount: map<string, nat>)
    requires Counted(seen, order, wordCount) && w !in wordCount
    ensures Counted(seen + [w], order + [w], wordCount[w := 1])
  {
    OccurrencesSnoc(seen, w);
    OccurrencesAbsent(seen, w);
  }

  /**
   * The `forEach` that fills the `wordCount` Map: `order` is the Map's key
   * order (first occurrence first) and `wordCount` maps each word to its count.
   */
  method CountWords(words: seq<string>) returns (order: seq<string>, wordCount: map<string, nat>)
    ensures order == FirstOccurrences(words)
    ensures forall w :: w in wordCount <==> w in words
    ensures forall w :: w in wordCount ==> wordCount[w] == Occurrences(words, w)
  {
    order := [];
    wordCount := map[];
    for i := 0 to |words|
      invariant Counted(words[..i], order, wordCount)
    {
      var w := words[i];
      assert words[..i + 1] == words[..i] + [w];
      if w in wordCount {
        CountStepSeen(words[..i], w, order, wordCount);
        wordCount := wordCount[w := wordCount[w] + 1];
      } else {
        CountStepNew(words[..i], w, order, wordCount);
        wordCount := wordCount[w := 1];
        order := order + [w];
      }
    }
    assert words[..|words|] == words;
  }

  /**
   * The rest of `extractKeywords` once the words are known: count them, sort
   * the entries by count, keep ten and join them with ", ".
   */
  method RankKeywords(words: seq<string>) returns (keywords: string)
    ensures keywords == Join(KeywordsOf(words), ", ")
  {
    var order, wordCount := CountWords(words);
    var entries := seq(|order|, k requires 0 <= k < |order| => Entry(order[k], wordCount[order[k]]));
    assert entries == Entries(words);
    var sorted := SortByCount(entries);
    var top := sorted[..if |sorted| < MAX_KEYWORDS then |sorted| else MAX_KEYWORDS];
    var sortedWords := seq(|top|, k requires 0 <= k < |top| => top[k].word);
    assert sortedWords == KeywordsOf(words);
    keywords := Join(sortedWords, ", ");
  }

  /** `extractKeywords(title, content)`. */
  method ExtractKeywords(title: string, content: string) returns (keywords: string)
    ensures keywords == Join(TopKeywords(title, content), ", ")
  {
    var cleanText := CleanText(title, content);
    var words := FilterWords(Split(cleanText, ' '));
    keywords := RankKeywords(words);
  }

  // ---------------------------------------------------------------------
  // Structured data

  /** The post fields `generateArticleSchema` reads (the creation date is not modelled). */
  datatype ArticlePost = ArticlePost(title: string, content: string, author: string,
                                     imageUrl: Option<string>, slug: string)

  /** The BlogPosting object, flattened. */
  datatype ArticleSchema = ArticleSchema(headline: string, description: string, image: Option<string>,
                                         authorName: string, publisherName: string, logoUrl: string,
                                         pageUrl: string)

  /** The description of the article schema: at most 160 characters, "..." marking a cut. */
  function ArticleDescription(content: string): (d: string)
    ensures |d| <= 160
    ensures |content| <= 160 ==> d == content
    ensures |content| > 160 ==> |d| == 160 && d[..157] == content[..157] && d[157..] == "..."
  {
    if |content| > 160 then content[..157] + "..." else content
  }

  /** `generateArticleSchema(post)`. */
  function GenerateArticleSchema(post: ArticlePost): (s: ArticleSchema)
    ensures s.description == ArticleDescription(post.content) && |s.description| <= 160
    ensures s.headline == post.title && s.authorName == post.author && s.image == post.imageUrl
    ensures s.pageUrl == SITE_URL + "/post/" + post.slug
  {
    ArticleSchema(post.title, ArticleDescription(post.content), post.imageUrl, post.author,
                  "INFOiyo", SITE_URL + "/logo512.png", SITE_URL + "/post/" + post.slug)
  }

  /** A breadcrumb as passed in. */
  datatype Crumb = Crumb(name: string, url: string)
  /** A ListItem of the BreadcrumbList. */
  datatype ListItem = ListItem(position: nat, name: string, item: string)

  /** `generateBreadcrumbSchema(items).itemListElement`. */
  function GenerateBreadcrumbSchema(items: seq<Crumb>): (r: seq<ListItem>)
    ensures |r| == |items|
    ensures forall i :: 0 <= i < |r| ==> r[i].position == i + 1
    ensures forall i :: 0 <= i < |r| ==> r[i].name == items[i].name && r[i].item == items[i].url
  {
    seq(|items|, i requires 0 <= i < |items| => ListItem(i + 1, items[i].name, items[i].url))
  }

  /** Positions run 1, 2, ..., n: appending a crumb adds one item numbered after all the others. */
  lemma BreadcrumbAppend(items: seq<Crumb>, c: Crumb)
    ensures GenerateBreadcrumbSchema(items + [c])
         == GenerateBreadcrumbSchema(items) + [ListItem(|items| + 1, c.name, c.url)]
  {
  }
}
