/**
 * `fix_json` (backend/main.py:122-131): two regular-expression substitutions
 * applied one after the other, written here as explicit left-to-right scans.
 *
 *   1. `re.sub(r',\s*([\]\}])', r'\1', s)` drops a comma and the whitespace
 *      after it when a closing bracket follows;
 *   2. `re.sub(r'([{,])\s*(\w+)\s*:', r'\1"\2":', s)` quotes a bare key
 *      that follows `{` or `,`.
 *
 * Neither scan knows about JSON strings: both also rewrite text inside
 * string values.
 */
module FixJson {
  import opened Wrappers
  import opened Text

  predicate IsCloser(c: char) { c == ']' || c == '}' }

  predicate IsOpener(c: char) { c == '{' || c == ',' }

  // ---------------------------------------------------------------------
  // Step 1: trailing commas
  // ---------------------------------------------------------------------

  /** The pattern `,\s*[\]\}]` matches at the start of `s`. */
  predicate TrailingCommaAtHead(s: string) {
    |s| > 0 && s[0] == ',' && SpanSpace(s, 1) < |s| && IsCloser(s[SpanSpace(s, 1)])
  }

  /** A comma followed, after optional whitespace, by another comma (`,,]`). */
  predicate RepeatedCommaAtHead(s: string) {
    |s| > 0 && s[0] == ',' && SpanSpace(s, 1) < |s| && s[SpanSpace(s, 1)] == ','
  }

  predicate NoTrailingComma(s: string) {
    forall k :: 0 <= k < |s| ==> !TrailingCommaAtHead(s[k..])
  }

  predicate NoRepeatedComma(s: string) {
    forall k :: 0 <= k < |s| ==> !RepeatedCommaAtHead(s[k..])
  }

  /** `s` with every comma and whitespace character removed. */
  function Essential(s: string): string {
    if s == [] then []
    else if s[0] == ',' || IsSpace(s[0]) then Essential(s[1..])
    else [s[0]] + Essential(s[1..])
  }

  /** The first substitution: each matched comma and its whitespace disappear. */
  function DropTrailingCommas(s: string): (r: string)
    decreases |s|
  {
    if s == [] then []
    else if TrailingCommaAtHead(s) then [s[SpanSpace(s, 1)]] + DropTrailingCommas(s[SpanSpace(s, 1) + 1..])
    else [s[0]] + DropTrailingCommas(s[1..])
  }

  /**
   * The first substitution deletes only commas and whitespace: with both
   * erased, input and output agree.
   */
  lemma {:induction false} DropTrailingCommasOnlyDeletes(s: string)
    ensures |DropTrailingCommas(s)| <= |s|
    ensures Essential(DropTrailingCommas(s)) == Essential(s)
    decreases |s|
  {
    if s == [] {
    } else if TrailingCommaAtHead(s) {
      var b := SpanSpace(s, 1);
      DropTrailingCommasOnlyDeletes(s[b + 1..]);
      EssentialSkipsSpaces(s, 1, b);
      assert s[1..][b - 1..] == s[b..];
      assert s[b..][1..] == s[b + 1..];
      assert Essential(s[b..]) == [s[b]] + Essential(s[b + 1..]);
      assert Essential([s[b]] + DropTrailingCommas(s[b + 1..])) == [s[b]] + Essential(DropTrailingCommas(s[b + 1..])) by {
        assert ([s[b]] + DropTrailingCommas(s[b + 1..]))[1..] == DropTrailingCommas(s[b + 1..]);
      }
    } else {
      DropTrailingCommasOnlyDeletes(s[1..]);
      assert ([s[0]] + DropTrailingCommas(s[1..]))[1..] == DropTrailingCommas(s[1..]);
    }
  }

  lemma {:induction false} EssentialSkipsSpaces(s: string, i: nat, j: nat)
    requires i <= j <= |s|
    requires forall k :: i <= k < j ==> IsSpace(s[k])
    ensures Essential(s[i..]) == Essential(s[j..])
    decreases j - i
  {
    if i < j {
      assert s[i..][1..] == s[i + 1..];
      EssentialSkipsSpaces(s, i + 1, j);
    }
  }

  lemma {:induction false} SuffixOfSuffix(s: string, k: nat)
    requires 0 < |s| && k < |s| - 1
    ensures s[1..][k..] == s[k + 1..]
  {
  }

  /** Text without a trailing comma is left exactly as it is. */
  lemma {:induction false} DropTrailingCommasFixesClean(s: string)
    requires NoTrailingComma(s)
    ensures DropTrailingCommas(s) == s
    decreases |s|
  {
    if s != [] {
      assert !TrailingCommaAtHead(s[0..]) by { assert s[0..] == s; }
      assert NoTrailingComma(s[1..]) by {
        forall k | 0 <= k < |s[1..]| ensures !TrailingCommaAtHead(s[1..][k..]) {
          assert s[1..][k..] == s[k + 1..];
        }
      }
      DropTrailingCommasFixesClean(s[1..]);
    }
  }

  /** Prepending a character that does not start a trailing comma keeps a text free of them. */
  lemma ConsKeepsNoTrailingComma(c: char, t: string)
    requires !TrailingCommaAtHead([c] + t) && NoTrailingComma(t)
    ensures NoTrailingComma([c] + t)
  {
    var u := [c] + t;
    forall k | 0 <= k < |u| ensures !TrailingCommaAtHead(u[k..]) {
      if k > 0 { assert u[k..] == t[k - 1..]; } else { assert u[k..] == u; }
    }
  }

  /** A prefix without commas passes through the first substitution unchanged. */
  lemma {:induction false} DropTrailingCommasCopies(x: string, t: string)
    requires forall k :: 0 <= k < |x| ==> x[k] != ','
    ensures DropTrailingCommas(x + t) == x + DropTrailingCommas(t)
    decreases |x|
  {
    if x != [] {
      var u := x + t;
      assert u[0] == x[0] && u[1..] == x[1..] + t;
      assert !TrailingCommaAtHead(u);
      assert DropTrailingCommas(u) == [x[0]] + DropTrailingCommas(x[1..] + t);
      DropTrailingCommasCopies(x[1..], t);
      assert x == [x[0]] + x[1..];
    } else {
      assert x + t == t;
    }
  }

  lemma {:induction false} NoRepeatedCommaSuffix(s: string, i: nat)
    requires i <= |s| && NoRepeatedComma(s)
    ensures NoRepeatedComma(s[i..])
  {
    forall k | 0 <= k < |s[i..]| ensures !RepeatedCommaAtHead(s[i..][k..]) {
      assert s[i..][k..] == s[i + k..];
    }
  }

  /**
   * Without repeated commas, the output of the first substitution has no
   * trailing comma left.
   */
  lemma {:induction false} DropTrailingCommasLeavesNone(s: string)
    requires NoRepeatedComma(s)
    ensures NoTrailingComma(DropTrailingCommas(s))
    decreases |s|
  {
    if s == [] {
    } else if TrailingCommaAtHead(s) {
      var b := SpanSpace(s, 1);
      DropMatched(s);
      NoRepeatedCommaSuffix(s, b + 1);
      DropTrailingCommasLeavesNone(s[b + 1..]);
      ConsKeepsNoTrailingComma(s[b], DropTrailingCommas(s[b + 1..]));
    } else {
      DropUnmatched(s);
      NoRepeatedCommaSuffix(s, 1);
      DropTrailingCommasLeavesNone(s[1..]);
      if s[0] != ',' {
        ConsKeepsNoTrailingComma(s[0], DropTrailingCommas(s[1..]));
      } else {
        assert !RepeatedCommaAtHead(s[0..]) && s[0..] == s;
        KeptCommaStaysKept(s);
      }
    }
  }

  lemma DropMatched(s: string)
    requires TrailingCommaAtHead(s)
    ensures DropTrailingCommas(s) == [s[SpanSpace(s, 1)]] + DropTrailingCommas(s[SpanSpace(s, 1) + 1..])
  {
  }

  lemma DropUnmatched(s: string)
    requires s != [] && !TrailingCommaAtHead(s)
    ensures DropTrailingCommas(s) == [s[0]] + DropTrailingCommas(s[1..])
  {
  }

  /**
   * A comma that the first substitution keeps, and that is not followed by
   * another comma, is still not a trailing comma in the output.
   */
  lemma {:induction false} KeptCommaStaysKept(s: string)
    requires s != [] && s[0] == ',' && !TrailingCommaAtHead(s) && !RepeatedCommaAtHead(s)
    requires NoTrailingComma(DropTrailingCommas(s[1..]))
    ensures NoTrailingComma(DropTrailingCommas(s))
  {
    var t := DropTrailingCommas(s[1..]);
    DropUnmatched(s);
    var r := [s[0]] + t;
    var b := SpanSpace(s, 1);
    CommaFollowersCopied(s);
    assert forall k :: 1 <= k < b ==> IsSpace(r[k]) by {
      forall k | 1 <= k < b ensures IsSpace(r[k]) {
        assert r[k] == r[..b][k] == s[..b][k] == s[k];
      }
    }
    assert b < |r| ==> !IsSpace(r[b]);
    SpanSpaceUnique(r, 1, b);
    assert !TrailingCommaAtHead(r);
    ConsKeepsNoTrailingComma(s[0], t);
  }

  /**
   * After a kept comma, the first substitution copies the whitespace run and
   * the character that ends it.
   */
  lemma {:induction false} CommaFollowersCopied(s: string)
    requires s != [] && s[0] == ',' && !RepeatedCommaAtHead(s)
    requires !TrailingCommaAtHead(s)
    ensures var b := SpanSpace(s, 1); var r := [s[0]] + DropTrailingCommas(s[1..]);
      && |r| >= b && r[..b] == s[..b]
      && (b < |s| ==> |r| > b && r[b] == s[b] && !IsCloser(s[b]) && s[b] != ',')
      && (b == |s| ==> r == s)
  {
    var b := SpanSpace(s, 1);
    var t := DropTrailingCommas(s[1..]);
    assert forall k :: 0 <= k < |s[1..b]| ==> s[1..b][k] != ',';
    DropTrailingCommasCopies(s[1..b], s[b..]);
    assert s[1..] == s[1..b] + s[b..];
    assert t == s[1..b] + DropTrailingCommas(s[b..]);
    assert s[..b] == [s[0]] + s[1..b];
    if b < |s| {
      assert s[b] != ',';
      DropUnmatched(s[b..]);
      assert s[b..][1..] == s[b + 1..];
    } else {
      assert s[b..] == [];
      assert s == [s[0]] + s[1..b];
    }
  }

  /** Conversely, every match of the pattern at the head of `s` is the one BareKeyAt finds, with the same bounds. */
  lemma BareKeyAtComplete(s: string, a: nat, b: nat, c: nat)
    requires 0 < a < b <= c < |s| && IsOpener(s[0]) && s[c] == ':'
    requires forall k :: 1 <= k < a ==> IsSpace(s[k])
    requires forall k :: a <= k < b ==> IsWordChar(s[k])
    requires forall k :: b <= k < c ==> IsSpace(s[k])
    ensures BareKeyAt(s) == Some((a, b, c))
  {
    SpanSpaceUnique(s, 1, a);
    SpanWordUnique(s, a, b);
    SpanSpaceUnique(s, b, c);
  }

  lemma {:induction false} SpanSpaceUnique(s: string, i: nat, j: nat)
    requires i <= j <= |s|
    requires forall k :: i <= k < j ==> IsSpace(s[k])
    requires j < |s| ==> !IsSpace(s[j])
    ensures SpanSpace(s, i) == j
    decreases j - i
  {
    if i < j {
      SpanSpaceUnique(s, i + 1, j);
    }
  }

  /** Without repeated commas, a second pass of the first substitution changes nothing. */
  lemma {:induction false} DropTrailingCommasIdempotent(s: string)
    requires NoRepeatedComma(s)
    ensures DropTrailingCommas(DropTrailingCommas(s)) == DropTrailingCommas(s)
  {
    DropTrailingCommasLeavesNone(s);
    DropTrailingCommasFixesClean(DropTrailingCommas(s));
  }

  /** With repeated commas a second pass does change the text: `,,]` becomes `,]`, then `]`. */
  lemma {:induction false} RepeatedCommasNeedTwoPasses()
    ensures DropTrailingCommas(",,]") == ",]"
    ensures DropTrailingCommas(",]") == "]"
  {
    assert SpanSpace(",,]", 1) == 1;
    assert ",,]"[1..] == ",]";
    assert SpanSpace(",]", 1) == 1;
    assert ",]"[2..] == [];
  }

  // ---------------------------------------------------------------------
  // Step 2: bare keys
  // ---------------------------------------------------------------------

  /**
   * Where the pattern `([{,])\s*(\w+)\s*:` matches at the start of `s`: the
   * bounds of the word and the index of the colon. The whitespace and word
   * runs are maximal, as no shorter run can be followed by what comes next.
   */
  function BareKeyAt(s: string): (r: Option<(nat, nat, nat)>)
    ensures r.Some? ==> 0 < r.value.0 < r.value.1 <= r.value.2 < |s| && IsOpener(s[0]) && s[r.value.2] == ':'
    ensures r.Some? ==> forall k :: 1 <= k < r.value.0 ==> IsSpace(s[k])
    ensures r.Some? ==> forall k :: r.value.0 <= k < r.value.1 ==> IsWordChar(s[k])
    ensures r.Some? ==> forall k :: r.value.1 <= k < r.value.2 ==> IsSpace(s[k])
  {
    if |s| == 0 || !IsOpener(s[0]) then None
    else
      var a := SpanSpace(s, 1);
      var b := SpanWord(s, a);
      var c := SpanSpace(s, b);
      if a < b && c < |s| && s[c] == ':' then Some((a, b, c)) else None
  }

  /** The text `\1"\2":` that replaces a bare key: the opener, then the quoted key. */
  function Replacement(opener: char, word: string): string {
    [opener] + QuotedKey(word)
  }

  /** The key in double quotes, followed by the colon. */
  function QuotedKey(word: string): string {
    "\"" + word + "\":"
  }

  /** The second substitution: `{ key :` and `, key :` become `{"key":` and `,"key":`. */
  function QuoteKeys(s: string): (r: string)
    decreases |s|
  {
    if s == [] then []
    else
      var m := BareKeyAt(s);
      if m.Some? then Replacement(s[0], s[m.value.0..m.value.1]) + QuoteKeys(s[m.value.2 + 1..])
      else [s[0]] + QuoteKeys(s[1..])
  }

  predicate NoBareKey(s: string) {
    forall k :: 0 <= k < |s| ==> BareKeyAt(s[k..]).None?
  }

  /** `s` with every double quote and whitespace character removed. */
  function Unquoted(s: string): string {
    if s == [] then []
    else if s[0] == '"' || IsSpace(s[0]) then Unquoted(s[1..])
    else [s[0]] + Unquoted(s[1..])
  }

  lemma {:induction false} UnquotedAppend(x: string, y: string)
    ensures Unquoted(x + y) == Unquoted(x) + Unquoted(y)
    decreases |x|
  {
    if x != [] {
      assert (x + y)[0] == x[0] && (x + y)[1..] == x[1..] + y;
      UnquotedAppend(x[1..], y);
    } else {
      assert x + y == y;
    }
  }

  lemma {:induction false} UnquotedOfSpaces(s: string, i: nat, j: nat)
    requires i <= j <= |s|
    requires forall k :: i <= k < j ==> IsSpace(s[k])
    ensures Unquoted(s[i..j]) == []
    decreases j - i
  {
    if i < j {
      assert s[i..j][1..] == s[i + 1..j];
      UnquotedOfSpaces(s, i + 1, j);
    }
  }

  lemma {:induction false} UnquotedOfWord(s: string, i: nat, j: nat)
    requires i <= j <= |s|
    requires forall k :: i <= k < j ==> IsWordChar(s[k])
    ensures Unquoted(s[i..j]) == s[i..j]
    decreases j - i
  {
    if i < j {
      assert s[i..j][1..] == s[i + 1..j];
      UnquotedOfWord(s, i + 1, j);
      assert s[i..j] == [s[i]] + s[i + 1..j];
    }
  }

  lemma {:induction false} UnquotedSingle(c: char)
    ensures Unquoted([c]) == if c == '"' || IsSpace(c) then [] else [c]
  {
    assert [c][1..] == [];
  }

  /** What survives of a matched `{ key :` once quotes and whitespace are erased. */
  lemma {:induction false} UnquotedOfBareKey(s: string, a: nat, b: nat, c: nat)
    requires BareKeyAt(s) == Some((a, b, c))
    ensures Unquoted(s[..c + 1]) == [s[0]] + s[a..b] + [':']
  {
    assert s[..a] == [s[0]] + s[1..a];
    assert s[..b] == s[..a] + s[a..b];
    assert s[..c] == s[..b] + s[b..c];
    assert s[..c + 1] == s[..c] + [s[c]];
    UnquotedAppend(s[..c], [s[c]]);
    UnquotedAppend(s[..b], s[b..c]);
    UnquotedAppend(s[..a], s[a..b]);
    UnquotedAppend([s[0]], s[1..a]);
    UnquotedOfSpaces(s, 1, a);
    UnquotedOfSpaces(s, b, c);
    UnquotedOfWord(s, a, b);
    UnquotedSingle(s[0]);
    UnquotedSingle(s[c]);
  }

  /** What survives of the replacement `{"key":` once quotes and whitespace are erased. */
  lemma {:induction false} UnquotedOfQuotedKey(o: char, word: string)
    requires IsOpener(o) && forall k :: 0 <= k < |word| ==> IsWordChar(word[k])
    ensures Unquoted(Replacement(o, word)) == [o] + word + [':']
  {
    UnquotedAppend([o], QuotedKey(word));
    UnquotedSingle(o);
    UnquotedOfWord(word, 0, |word|);
    assert word[0..|word|] == word;
    UnquotedAppend("\"" + word, "\":");
    UnquotedAppend("\"", word);
    UnquotedSingle('"');
    assert "\":"[1..] == [':'];
    UnquotedSingle(':');
    assert Unquoted("\":") == [':'];
    assert Unquoted(QuotedKey(word)) == word + [':'];
  }

  /**
   * Quoting keys only inserts double quotes and removes whitespace: with
   * both erased, input and output agree.
   */
  lemma {:induction false} QuoteKeysOnlyQuotesAndSpaces(s: string)
    ensures Unquoted(QuoteKeys(s)) == Unquoted(s)
    decreases |s|, 1
  {
    if s != [] {
      if BareKeyAt(s).Some? {
        UnquotedAtKey(s);
      } else {
        UnquotedAtOther(s);
      }
    }
  }

  /** The step of QuoteKeysOnlyQuotesAndSpaces where a bare key starts at the head. */
  lemma {:induction false} UnquotedAtKey(s: string)
    requires BareKeyAt(s).Some?
    ensures Unquoted(QuoteKeys(s)) == Unquoted(s)
    decreases |s|, 0
  {
    var (a, b, c) := BareKeyAt(s).value;
    QuoteKeysOnlyQuotesAndSpaces(s[c + 1..]);
    var out := Replacement(s[0], s[a..b]);
    QuoteKeysMatched(s, a, b, c);
    UnquotedAppend(out, QuoteKeys(s[c + 1..]));
    UnquotedOfQuotedKey(s[0], s[a..b]);
    UnquotedOfBareKey(s, a, b, c);
    assert s == s[..c + 1] + s[c + 1..];
    UnquotedAppend(s[..c + 1], s[c + 1..]);
  }

  /** The step of QuoteKeysOnlyQuotesAndSpaces where no bare key starts at the head. */
  lemma {:induction false} UnquotedAtOther(s: string)
    requires s != [] && BareKeyAt(s).None?
    ensures Unquoted(QuoteKeys(s)) == Unquoted(s)
    decreases |s|, 0
  {
    QuoteKeysOnlyQuotesAndSpaces(s[1..]);
    QuoteKeysUnmatched(s);
    UnquotedAppend([s[0]], QuoteKeys(s[1..]));
    UnquotedAppend([s[0]], s[1..]);
    assert s == [s[0]] + s[1..];
  }

  lemma QuoteKeysMatched(s: string, a: nat, b: nat, c: nat)
    requires BareKeyAt(s) == Some((a, b, c))
    ensures QuoteKeys(s) == Replacement(s[0], s[a..b]) + QuoteKeys(s[c + 1..])
  {
  }

  /** QuoteKeysMatched with the replacement grouped as one piece. */
  lemma {:induction false} QuoteKeysMatchedGrouped(s: string, a: nat, b: nat, c: nat)
    requires BareKeyAt(s) == Some((a, b, c))
    ensures QuoteKeys(s) == [s[0]] + (QuotedKey(s[a..b]) + QuoteKeys(s[c + 1..]))
  {
    QuoteKeysMatched(s, a, b, c);
  }

  lemma QuoteKeysUnmatched(s: string)
    requires s != [] && BareKeyAt(s).None?
    ensures QuoteKeys(s) == [s[0]] + QuoteKeys(s[1..])
  {
  }

  /** Text without a bare key is left exactly as it is (already-quoted keys are untouched). */
  lemma {:induction false} QuoteKeysFixesClean(s: string)
    requires NoBareKey(s)
    ensures QuoteKeys(s) == s
    decreases |s|
  {
    if s != [] {
      assert s[0..] == s;
      assert NoBareKey(s[1..]) by {
        forall k | 0 <= k < |s[1..]| ensures BareKeyAt(s[1..][k..]).None? {
          assert s[1..][k..] == s[k + 1..];
        }
      }
      QuoteKeysFixesClean(s[1..]);
    }
  }

  predicate OpenerFree(x: string) {
    forall k :: 0 <= k < |x| ==> !IsOpener(x[k])
  }

  /** A prefix without `{` or `,` passes through the second substitution unchanged. */
  lemma {:induction false} QuoteKeysCopies(x: string, t: string)
    requires OpenerFree(x)
    ensures QuoteKeys(x + t) == x + QuoteKeys(t)
    decreases |x|
  {
    if x != [] {
      var u := x + t;
      assert u[0] == x[0] && u[1..] == x[1..] + t;
      assert BareKeyAt(u).None?;
      assert QuoteKeys(u) == [x[0]] + QuoteKeys(x[1..] + t);
      QuoteKeysCopies(x[1..], t);
      assert x == [x[0]] + x[1..];
    } else {
      assert x + t == t;
    }
  }

  /** Index of the first `{` or `,` at or after `i` (or `|s|`). */
  function NextOpener(s: string, i: nat): (j: nat)
    requires i <= |s|
    ensures i <= j <= |s| && OpenerFree(s[i..j])
    ensures j < |s| ==> IsOpener(s[j])
    decreases |s| - i
  {
    if i == |s| || IsOpener(s[i]) then i
    else
      var j := NextOpener(s, i + 1);
      assert s[i..j] == [s[i]] + s[i + 1..j];
      j
  }

  /** A character that ends both a whitespace run and a word run. */
  predicate Stops(c: char) { !IsSpace(c) && !IsWordChar(c) }

  lemma {:induction false} SpanSpaceAgrees(u: string, v: string, m: nat, i: nat)
    requires m < |u| && m < |v| && u[..m + 1] == v[..m + 1] && Stops(u[m]) && i <= m
    ensures SpanSpace(u, i) == SpanSpace(v, i) <= m
    decreases m - i
  {
    assert u[i] == u[..m + 1][i] == v[..m + 1][i] == v[i];
    if i < m && IsSpace(u[i]) { SpanSpaceAgrees(u, v, m, i + 1); }
  }

  lemma {:induction false} SpanWordAgrees(u: string, v: string, m: nat, i: nat)
    requires m < |u| && m < |v| && u[..m + 1] == v[..m + 1] && Stops(u[m]) && i <= m
    ensures SpanWord(u, i) == SpanWord(v, i) <= m
    decreases m - i
  {
    assert u[i] == u[..m + 1][i] == v[..m + 1][i] == v[i];
    if i < m && IsWordChar(u[i]) { SpanWordAgrees(u, v, m, i + 1); }
  }

  /** Whether a bare key starts at the head depends only on text up to a stopping character. */
  lemma {:induction false} BareKeyAtAgrees(u: string, v: string, m: nat)
    requires 0 < m < |u| && m < |v| && u[..m + 1] == v[..m + 1] && Stops(u[m])
    ensures BareKeyAt(u) == BareKeyAt(v)
  {
    assert u[0] == u[..m + 1][0] == v[..m + 1][0] == v[0];
    SpanSpaceAgrees(u, v, m, 1);
    var a := SpanSpace(u, 1);
    SpanWordAgrees(u, v, m, a);
    var b := SpanWord(u, a);
    SpanSpaceAgrees(u, v, m, b);
    var c := SpanSpace(u, b);
    assert u[c] == u[..m + 1][c] == v[..m + 1][c] == v[c];
  }

  /**
   * Where no bare key starts at the head, none starts there after the rest
   * has been rewritten either.
   */
  lemma {:induction false} NoBareKeyKept(s: string)
    requires s != [] && BareKeyAt(s).None?
    ensures BareKeyAt([s[0]] + QuoteKeys(s[1..])).None?
  {
    if IsOpener(s[0]) {
      var j := NextOpener(s, 1);
      if j < |s| {
        KeyAtHeadKept(s, j);
      } else {
        assert s[1..j] == s[1..];
        QuoteKeysKeepsOpenerFree(s[1..]);
        assert [s[0]] + s[1..] == s;
      }
    }
  }

  /** With an opener at `j`, rewriting `s[1..]` leaves `s[..j + 1]`, and so the match at the head, alone. */
  lemma {:induction false} KeyAtHeadKept(s: string, j: nat)
    requires 0 < j < |s| && OpenerFree(s[1..j]) && IsOpener(s[j])
    ensures BareKeyAt([s[0]] + QuoteKeys(s[1..])) == BareKeyAt(s)
  {
    var x, t := s[1..j], s[j..];
    assert s[1..] == x + t;
    QuoteKeysCopies(x, t);
    var q := QuoteKeys(t);
    var v := [s[0]] + QuoteKeys(s[1..]);
    QuoteKeysHead(t);
    SamePrefix(s, x, q, j);
    BareKeyAtAgrees(s, v, j);
  }

  lemma {:induction false} SamePrefix(s: string, x: string, q: string, j: nat)
    requires 0 < j < |s| && x == s[1..j] && q != [] && q[0] == s[j]
    ensures s[..j + 1] == ([s[0]] + (x + q))[..j + 1]
  {
    var v := [s[0]] + (x + q);
    forall k | 0 <= k <= j ensures s[k] == v[k] {
      if 0 < k < j { assert v[k] == x[k - 1]; }
    }
  }

  lemma {:induction false} QuoteKeysHead(t: string)
    requires t != []
    ensures QuoteKeys(t) != [] && QuoteKeys(t)[0] == t[0]
  {
  }

  /** The text a matched bare key is replaced with contains no further `{` or `,`. */
  lemma {:induction false} QuotedKeyOpenerFree(s: string, a: nat, b: nat, c: nat)
    requires BareKeyAt(s) == Some((a, b, c))
    ensures OpenerFree(QuotedKey(s[a..b]))
  {
    var mid := QuotedKey(s[a..b]);
    forall k | 0 <= k < |mid| ensures !IsOpener(mid[k]) {
      if 1 <= k < |mid| - 2 {
        assert mid[k] == s[a + k - 1];
        assert IsWordChar(s[a + k - 1]);
      }
    }
  }

  /** After the replacement, the opener is followed by a quote, so no bare key starts there. */
  lemma {:induction false} QuotedKeyNotBare(o: char, rest: string)
    requires rest != [] && rest[0] == '"'
    ensures BareKeyAt([o] + rest).None?
  {
    var out := [o] + rest;
    assert out[1] == '"';
    SpanSpaceUnique(out, 1, 1);
  }

  /** Quoting keys twice is the same as quoting them once, for every input. */
  lemma {:induction false} QuoteKeysIdempotent(s: string)
    ensures QuoteKeys(QuoteKeys(s)) == QuoteKeys(s)
    decreases |s|
  {
    if s != [] {
      var m := BareKeyAt(s);
      if m.Some? {
        var a, b, c := m.value.0, m.value.1, m.value.2;
        QuoteKeysIdempotent(s[c + 1..]);
        IdempotentAtKey(s, a, b, c);
      } else {
        QuoteKeysIdempotent(s[1..]);
        IdempotentAtOther(s);
      }
    }
  }

  /** The step of QuoteKeysIdempotent where a bare key starts at the head. */
  lemma {:induction false} IdempotentAtKey(s: string, a: nat, b: nat, c: nat)
    requires BareKeyAt(s) == Some((a, b, c))
    requires QuoteKeys(QuoteKeys(s[c + 1..])) == QuoteKeys(s[c + 1..])
    ensures QuoteKeys(QuoteKeys(s)) == QuoteKeys(s)
  {
    var mid := QuotedKey(s[a..b]);
    var rest := QuoteKeys(s[c + 1..]);
    QuoteKeysMatchedGrouped(s, a, b, c);
    var tail := mid + rest;
    var out := [s[0]] + tail;
    assert QuoteKeys(s) == out;
    assert tail[0] == '"';
    QuotedKeyNotBare(s[0], tail);
    assert out[1..] == tail;
    QuoteKeysUnmatched(out);
    QuotedKeyOpenerFree(s, a, b, c);
    QuoteKeysCopies(mid, rest);
  }

  /** The step of QuoteKeysIdempotent where no bare key starts at the head. */
  lemma {:induction false} IdempotentAtOther(s: string)
    requires s != [] && BareKeyAt(s).None?
    requires QuoteKeys(QuoteKeys(s[1..])) == QuoteKeys(s[1..])
    ensures QuoteKeys(QuoteKeys(s)) == QuoteKeys(s)
  {
    var rest := QuoteKeys(s[1..]);
    QuoteKeysUnmatched(s);
    var out := [s[0]] + rest;
    NoBareKeyKept(s);
    assert out[1..] == rest;
    QuoteKeysUnmatched(out);
  }

  /**
   * The scan is not aware of JSON strings: whatever precedes it (here `x`,
   * which may well end inside a string value such as `{"k": "a`), a
   * `,word:` is rewritten to `,"word":`.
   */
  lemma {:induction false} QuoteKeysIgnoresStrings(x: string, w: string, u: string)
    requires OpenerFree(x) && OpenerFree(u)
    requires w != [] && forall k :: 0 <= k < |w| ==> IsWordChar(w[k])
    ensures QuoteKeys(x + ("," + w + ":" + u)) == x + (",\"" + w + "\":" + u)
  {
    var t := "," + w + ":" + u;
    var n := |w| + 1;
    CommaWordIsBareKey(t, w, u);
    QuoteKeysMatched(t, 1, n, n);
    assert t[1..n] == w && t[n + 1..] == u;
    QuoteKeysKeepsOpenerFree(u);
    assert Replacement(',', w) == ",\"" + w + "\":";
    assert QuoteKeys(t) == ",\"" + w + "\":" + u;
    QuoteKeysCopies(x, t);
  }

  lemma {:induction false} QuoteKeysKeepsOpenerFree(u: string)
    requires OpenerFree(u)
    ensures QuoteKeys(u) == u
  {
    QuoteKeysCopies(u, []);
    assert u + [] == u;
  }

  lemma {:induction false} CommaWordIsBareKey(t: string, w: string, u: string)
    requires w != [] && forall k :: 0 <= k < |w| ==> IsWordChar(w[k])
    requires t == "," + w + ":" + u
    ensures BareKeyAt(t) == Some((1, |w| + 1, |w| + 1))
  {
    var n := |w| + 1;
    assert t[n] == ':';
    assert t[1] == w[0];
    SpanSpaceUnique(t, 1, 1);
    forall k | 1 <= k < n ensures IsWordChar(t[k]) { assert t[k] == w[k - 1]; }
    SpanWordUnique(t, 1, n);
    SpanSpaceUnique(t, n, n);
  }

  lemma {:induction false} SpanWordUnique(s: string, i: nat, j: nat)
    requires i <= j <= |s|
    requires forall k :: i <= k < j ==> IsWordChar(s[k])
    requires j < |s| ==> !IsWordChar(s[j])
    ensures SpanWord(s, i) == j
    decreases j - i
  {
    if i < j {
      SpanWordUnique(s, i + 1, j);
    }
  }

  // ---------------------------------------------------------------------
  // fix_json
  // ---------------------------------------------------------------------

  /** `fix_json`: trailing commas first, then bare keys. */
  function Fix(s: string): (r: string)
    ensures Essential(DropTrailingCommas(s)) == Essential(s)
    ensures Unquoted(r) == Unquoted(DropTrailingCommas(s))
  {
    DropTrailingCommasOnlyDeletes(s);
    QuoteKeysOnlyQuotesAndSpaces(DropTrailingCommas(s));
    QuoteKeys(DropTrailingCommas(s))
  }
}
