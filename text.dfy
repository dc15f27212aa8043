/**
 * String helpers the feed normaliser relies on: Python's `str.strip()`,
 * the tag-removing substitution `re.sub(r"<[^>]+>", "", s)`, `str.replace`
 * of one character, and the summary truncation rule.
 */
module Text {

  /** Python's `str.isspace()` for a single code point. */
  predicate IsSpace(c: char) {
    || c == ' ' || c == '\t' || c == '\n' || c == '\r' || c == '\U{0B}' || c == '\U{0C}'
    || ('\U{1C}' <= c <= '\U{1F}')
    || c == '\U{85}' || c == '\U{A0}' || c == '\U{1680}'
    || ('\U{2000}' <= c <= '\U{200A}')
    || c == '\U{2028}' || c == '\U{2029}' || c == '\U{202F}' || c == '\U{205F}' || c == '\U{3000}'
  }

  predicate AllSpace(s: string) {
    forall i :: 0 <= i < |s| ==> IsSpace(s[i])
  }

  /** `s` with its leading whitespace removed. */
  function TrimStart(s: string): (r: string)
    ensures |r| <= |s| && r == s[|s| - |r|..]
    ensures AllSpace(s[..|s| - |r|])
    ensures r == [] || !IsSpace(r[0])
  {
    if s != [] && IsSpace(s[0]) then TrimStart(s[1..]) else s
  }

  /** `s` with its trailing whitespace removed. */
  function TrimEnd(s: string): (r: string)
    ensures |r| <= |s| && r == s[..|r|]
    ensures AllSpace(s[|r|..])
    ensures r == [] || !IsSpace(r[|r| - 1])
  {
    if s != [] && IsSpace(s[|s| - 1]) then TrimEnd(s[..|s| - 1]) else s
  }

  /** Number of whitespace characters `s.strip()` removes from the front of `s`. */
  function LeadingSpaces(s: string): (n: nat)
    ensures n <= |s| && AllSpace(s[..n])
  {
    |s| - |TrimStart(s)|
  }

  /**
   * Python's `s.strip()`: the result is the piece of `s` after its leading
   * whitespace with only whitespace behind it, and it neither starts nor
   * ends with whitespace.
   */
  function Strip(s: string): (r: string)
    ensures r == [] || (!IsSpace(r[0]) && !IsSpace(r[|r| - 1]))
    ensures r <= s[LeadingSpaces(s)..] && AllSpace(s[LeadingSpaces(s)..][|r|..])
  {
    var t := TrimStart(s);
    var r := TrimEnd(t);
    assert s[LeadingSpaces(s)..] == t;
    r
  }

  /** Stripping is idempotent. */
  lemma StripIdempotent(s: string)
    ensures Strip(Strip(s)) == Strip(s)
  {
    var r := Strip(s);
    if r != [] {
      assert TrimStart(r) == r;
      assert TrimEnd(r) == r;
    }
  }

  /** Position of the first '>' in `s`, or `|s|` when there is none. */
  function IndexOfGt(s: string): (k: nat)
    ensures k <= |s|
    ensures k < |s| ==> s[k] == '>'
    ensures forall i :: 0 <= i < k ==> s[i] != '>'
  {
    if s == [] || s[0] == '>' then 0 else 1 + IndexOfGt(s[1..])
  }

  /** Does the pattern `<[^>]+>` match at the start of `s`? */
  predicate StartsTag(s: string) {
    2 <= |s| && s[0] == '<' && s[1] != '>' && IndexOfGt(s[1..]) < |s| - 1
  }

  /**
   * `re.sub(r"<[^>]+>", "", s)`: scanning from the left, every match of
   * `<`, one or more characters other than `>`, then `>` is deleted.
   */
  function StripTags(s: string): (r: string)
    ensures |r| <= |s|
    ensures forall c :: c in r ==> c in s
  {
    if s == [] then []
    else if StartsTag(s) then
      var rest := s[IndexOfGt(s[1..]) + 2..];
      var r := StripTags(rest);
      assert forall c :: c in rest ==> c in s by {
        forall c | c in rest ensures c in s {
          var k :| 0 <= k < |rest| && rest[k] == c;
          assert s[IndexOfGt(s[1..]) + 2 + k] == c;
        }
      }
      r
    else
      var t := StripTags(s[1..]);
      assert forall c :: c in s[1..] ==> c in s;
      [s[0]] + t
  }

  /** `s` holds no match of `<[^>]+>`: a '<' followed somewhere by '>' is followed by it at once. */
  predicate NoTag(s: string) {
    forall i, j :: 0 <= i < j < |s| && s[i] == '<' && s[j] == '>' ==> s[i + 1] == '>'
  }

  lemma NoTagSuffix(s: string, k: nat)
    requires NoTag(s) && k <= |s|
    ensures NoTag(s[k..])
  {
    var t := s[k..];
    forall i, j | 0 <= i < j < |t| && t[i] == '<' && t[j] == '>' ensures t[i + 1] == '>' {
      assert s[k + i] == '<' && s[k + j] == '>';
    }
  }

  lemma NoTagPrefix(s: string, k: nat)
    requires NoTag(s) && k <= |s|
    ensures NoTag(s[..k])
  {
    var t := s[..k];
    forall i, j | 0 <= i < j < |t| && t[i] == '<' && t[j] == '>' ensures t[i + 1] == '>' {
      assert s[i] == '<' && s[j] == '>';
    }
  }

  lemma NoTagAppend(s: string, c: char)
    requires NoTag(s) && c != '>'
    ensures NoTag(s + [c])
  {
    var t := s + [c];
    forall i, j | 0 <= i < j < |t| && t[i] == '<' && t[j] == '>' ensures t[i + 1] == '>' {
      assert j < |s|;
      assert s[i] == '<' && s[j] == '>';
    }
  }

  /**
   * A leading '<' that does not open a tag, with a '>' after it that survives
   * the substitution, is directly followed by that '>'.
   */
  lemma UnopenedTagIsFollowedByGt(s: string)
    requires s != [] && s[0] == '<' && !StartsTag(s) && '>' in StripTags(s[1..])
    ensures StripTags(s[1..]) != [] && StripTags(s[1..])[0] == '>'
  {
    // the '>' comes from s[1..], so only s[1] == '>' kept s[0] from opening a tag
    assert '>' in s[1..];
    assert IndexOfGt(s[1..]) < |s| - 1;
    assert s[1] == '>';
    assert !StartsTag(s[1..]);
  }

  /** After the substitution no tag is left in the text. */
  lemma {:induction false} StripTagsLeavesNoTag(s: string)
    ensures NoTag(StripTags(s))
  {
    if s == [] {
    } else if StartsTag(s) {
      StripTagsLeavesNoTag(s[IndexOfGt(s[1..]) + 2..]);
    } else {
      var t := StripTags(s[1..]);
      StripTagsLeavesNoTag(s[1..]);
      var r := [s[0]] + t;
      assert StripTags(s) == r;
      forall i, j | 0 <= i < j < |r| && r[i] == '<' && r[j] == '>' ensures r[i + 1] == '>' {
        if i == 0 {
          assert t[j - 1] == '>';
          UnopenedTagIsFollowedByGt(s);
        } else {
          assert t[i - 1] == '<' && t[j - 1] == '>';
        }
      }
    }
  }

  /** Text without tags passes through the substitution unchanged. */
  lemma {:induction false} StripTagsKeepsTagFree(s: string)
    requires NoTag(s)
    ensures StripTags(s) == s
  {
    if s != [] {
      assert !StartsTag(s);
      NoTagSuffix(s, 1);
      StripTagsKeepsTagFree(s[1..]);
    }
  }

  /** Text before the first '<' passes through the substitution unchanged. */
  lemma {:induction false} StripTagsKeepsPlainPrefix(x: string, s: string)
    requires '<' !in x
    ensures StripTags(x + s) == x + StripTags(s)
  {
    if x == [] {
      assert x + s == s;
    } else {
      var t := x + s;
      assert t[0] == x[0] && x[0] != '<' && !StartsTag(t);
      assert t[1..] == x[1..] + s;
      StripTagsKeepsPlainPrefix(x[1..], s);
      calc {
        StripTags(t);
        [x[0]] + StripTags(x[1..] + s);
        [x[0]] + (x[1..] + StripTags(s));
        ([x[0]] + x[1..]) + StripTags(s);
        { assert [x[0]] + x[1..] == x; }
        x + StripTags(s);
      }
    }
  }

  /** An empty pair "<>" is no tag: it is kept and the scan goes on after it. */
  lemma EmptyBracketsKept(s: string)
    ensures StripTags(['<', '>'] + s) == ['<', '>'] + StripTags(s)
  {
    var t := ['<', '>'] + s;
    assert !StartsTag(t);
    assert t[1..] == ['>'] + s;
    assert (['>'] + s)[1..] == s;
  }

  /** A leading tag `<m>`, with `m` non-empty and free of '>', is deleted and the scan goes on after it. */
  lemma StripTagsDeletesTag(m: string, s: string)
    requires m != [] && '>' !in m
    ensures StripTags(['<'] + m + ['>'] + s) == StripTags(s)
  {
    var t := ['<'] + m + ['>'] + s;
    var u := t[1..];
    assert u == m + ['>'] + s;
    assert u[|m|] == '>';
    assert forall i :: 0 <= i < |m| ==> u[i] == m[i];
    assert forall i :: 0 <= i < |m| ==> u[i] != '>';
    var k := IndexOfGt(u);
    assert k == |m|;
    assert StartsTag(t);
    assert t[k + 2..] == s;
  }

  /** The substitution is idempotent. */
  lemma StripTagsIdempotent(s: string)
    ensures StripTags(StripTags(s)) == StripTags(s)
  {
    StripTagsLeavesNoTag(s);
    StripTagsKeepsTagFree(StripTags(s));
  }

  /** Python's `s.replace(old, new)` for a one-character `old`. */
  function ReplaceChar(s: string, from: char, to: string): (r: string)
    ensures from !in to ==> from !in r
    ensures from !in s ==> r == s
  {
    if s == [] then []
    else (if s[0] == from then to else [s[0]]) + ReplaceChar(s[1..], from, to)
  }

  /** The replacement works character by character: it distributes over concatenation. */
  lemma {:induction false} ReplaceCharAppend(a: string, b: string, from: char, to: string)
    ensures ReplaceChar(a + b, from, to) == ReplaceChar(a, from, to) + ReplaceChar(b, from, to)
  {
    if a == [] {
      assert a + b == b;
    } else {
      var head := if a[0] == from then to else [a[0]];
      assert (a + b)[0] == a[0];
      assert (a + b)[1..] == a[1..] + b;
      ReplaceCharAppend(a[1..], b, from, to);
      calc {
        ReplaceChar(a + b, from, to);
        head + ReplaceChar(a[1..] + b, from, to);
        head + (ReplaceChar(a[1..], from, to) + ReplaceChar(b, from, to));
        (head + ReplaceChar(a[1..], from, to)) + ReplaceChar(b, from, to);
        ReplaceChar(a, from, to) + ReplaceChar(b, from, to);
      }
    }
  }

  /** A single character becomes `to` when it is `from` and stays otherwise. */
  lemma ReplaceCharSingle(c: char, from: char, to: string)
    ensures ReplaceChar([c], from, to) == if c == from then to else [c]
  {
    assert [c][1..] == [];
  }

  const SummaryLimit: nat := 300
  /** U+2026 HORIZONTAL ELLIPSIS. */
  const Ellipsis: char := '\U{2026}'

  /** The cleaned description: tags removed, then whitespace stripped. */
  function CleanText(desc: string): (r: string)
    ensures NoTag(r)
    ensures r == [] || (!IsSpace(r[0]) && !IsSpace(r[|r| - 1]))
  {
    var t := StripTags(desc);
    var r := Strip(t);
    StripTagsLeavesNoTag(desc);
    var i := LeadingSpaces(t);
    NoTagSuffix(t, i);
    NoTagPrefix(t[i..], |r|);
    assert r == t[i..][..|r|];
    r
  }

  /**
   * The article summary: the cleaned description when it has at most 300
   * characters, otherwise its first 300 characters followed by an ellipsis.
   */
  function Summary(desc: string): (r: string)
    ensures |r| <= SummaryLimit + 1
    ensures NoTag(r)
    ensures r == [] || !IsSpace(r[0])
    ensures |CleanText(desc)| <= SummaryLimit ==> r == CleanText(desc)
    ensures |CleanText(desc)| > SummaryLimit ==>
      |r| == SummaryLimit + 1 && r[..SummaryLimit] == CleanText(desc)[..SummaryLimit] && r[SummaryLimit] == Ellipsis
  {
    var clean := CleanText(desc);
    if |clean| > SummaryLimit then
      var r := clean[..SummaryLimit] + [Ellipsis];
      NoTagPrefix(clean, SummaryLimit);
      NoTagAppend(clean[..SummaryLimit], Ellipsis);
      assert r[..SummaryLimit] == clean[..SummaryLimit];
      assert r[0] == clean[0];
      r
    else
      clean
  }
}
