/** The two regular expressions of the extraction code, written as scanners
    with the semantics of `String.prototype.match` on a non-global pattern: the
    match that starts leftmost wins, and its first capture group is returned. */
module Patterns {
  import opened Js

  /** An occurrence of `pat` in `s` starting at index `k`. */
  predicate OccursAt(s: string, pat: string, k: nat)
  {
    k + |pat| <= |s| && s[k..k + |pat|] == pat
  }

  ghost predicate Contains(s: string, pat: string)
  {
    exists k: nat :: OccursAt(s, pat, k)
  }

  /** The first occurrence of `pat` at or after `from`. */
  function IndexOf(s: string, pat: string, from: nat): (r: Option<nat>)
    requires from <= |s| && |pat| > 0
    ensures r.Some? ==> from <= r.value && OccursAt(s, pat, r.value)
    ensures r.Some? ==> forall k: nat :: from <= k < r.value ==> !OccursAt(s, pat, k)
    ensures r.None? ==> forall k: nat :: from <= k ==> !OccursAt(s, pat, k)
    decreases |s| - from
  {
    if OccursAt(s, pat, from) then Some(from)
    else if from + |pat| >= |s| then None
    else IndexOf(s, pat, from + 1)
  }

  lemma IndexOfFirst(s: string, pat: string, from: nat, e: nat)
    requires from <= e && |pat| > 0 && OccursAt(s, pat, e)
    requires forall k: nat :: from <= k < e ==> !OccursAt(s, pat, k)
    ensures IndexOf(s, pat, from) == Some(e)
  {
    var r := IndexOf(s, pat, from);
    assert r.Some? by { assert !(r.None?) by { assert OccursAt(s, pat, e); } }
  }

  /** The leftmost index in `from..end` where `attempt` succeeds; no attempt
      at `end` or beyond succeeds. This is how a non-global match picks the
      match that starts first. */
  function Leftmost(attempt: nat -> Option<string>, from: nat, end: nat): (r: Option<nat>)
    requires from <= end && forall i: nat :: end <= i ==> attempt(i).None?
    ensures r.None? <==> forall i: nat :: from <= i ==> attempt(i).None?
    ensures r.Some? ==> from <= r.value < end && attempt(r.value).Some?
    ensures r.Some? ==> forall k: nat :: from <= k < r.value ==> attempt(k).None?
    decreases end - from
  {
    if from == end then None
    else if attempt(from).Some? then Some(from)
    else Leftmost(attempt, from + 1, end)
  }

  /** The search returns any succeeding position that no earlier success
      precedes. */
  lemma LeftmostFirst(attempt: nat -> Option<string>, from: nat, end: nat, i: nat)
    requires from <= end && forall i: nat :: end <= i ==> attempt(i).None?
    requires from <= i && attempt(i).Some? && forall k: nat :: from <= k < i ==> attempt(k).None?
    ensures Leftmost(attempt, from, end) == Some(i)
  {
    var r := Leftmost(attempt, from, end);
    assert r.Some?;
    assert !(r.value < i);
    assert !(i < r.value);
  }

  // ---- /"var_material_composition_desc":"((?:[^"\\]|\\.)*)"/ ----

  /** The text `"var_material_composition_desc":"` that opens the match. */
  const CompositionKey: string := "\"var_material_composition_desc\":\""

  /** The characters JavaScript's `.` does not match. */
  predicate IsLineTerminator(c: char)
  {
    c == '\n' || c == '\r' || c == '\U{2028}' || c == '\U{2029}'
  }

  /** The language of `(?:[^"\\]|\\.)*`: characters other than a quote or a
      backslash, and a backslash followed by any character except a line
      terminator. */
  predicate EscapedText(t: string)
    decreases |t|
  {
    t == []
    || (t[0] != '"' && t[0] != '\\' && EscapedText(t[1..]))
    || (|t| >= 2 && t[0] == '\\' && !IsLineTerminator(t[1]) && EscapedText(t[2..]))
  }

  /** Scanning `(?:[^"\\]|\\.)*"` from index `j`: the index of the closing quote. */
  function ClosingQuote(s: string, j: nat): (r: Option<nat>)
    requires j <= |s|
    ensures r.Some? ==> j <= r.value < |s| && s[r.value] == '"' && EscapedText(s[j..r.value])
    decreases |s| - j
  {
    if j == |s| then None
    else if s[j] == '"' then Some(j)
    else if s[j] == '\\' then
      if j + 1 < |s| && !IsLineTerminator(s[j + 1]) then
        var r := ClosingQuote(s, j + 2);
        assert r.Some? ==> s[j..r.value][2..] == s[j + 2..r.value];
        r
      else None
    else
      var r := ClosingQuote(s, j + 1);
      assert r.Some? ==> s[j..r.value][1..] == s[j + 1..r.value];
      r
  }

  /** The scan stops at the first quote that ends an escaped text: the pattern
      matches from `j` exactly up to `e` when `s[j..e]` is escaped text and
      `s[e]` is a quote. */
  lemma {:induction false} ClosingQuoteFinds(s: string, j: nat, e: nat)
    requires j <= e < |s| && s[e] == '"' && EscapedText(s[j..e])
    ensures ClosingQuote(s, j) == Some(e)
    decreases e - j
  {
    var t := s[j..e];
    if t != [] {
      if t[0] != '"' && t[0] != '\\' && EscapedText(t[1..]) {
        assert t[1..] == s[j + 1..e];
        ClosingQuoteFinds(s, j + 1, e);
      } else {
        assert t[2..] == s[j + 2..e];
        ClosingQuoteFinds(s, j + 2, e);
      }
    }
  }

  /** The attempt to match the composition pattern at index `i`. */
  function CompositionAt(s: string, i: nat): (r: Option<string>)
    ensures r.Some? ==> OccursAt(s, CompositionKey, i)
  {
    if OccursAt(s, CompositionKey, i) then
      match ClosingQuote(s, i + |CompositionKey|)
      case Some(e) => Some(s[i + |CompositionKey|..e])
      case None => None
    else None
  }

  /** The capture group of the first match of the composition pattern in `s`. */
  function MatchComposition(s: string): (r: Option<string>)
    ensures r.None? <==> forall i: nat :: CompositionAt(s, i).None?
    ensures r.Some? ==> EscapedText(r.value)
  {
    assert forall i: nat :: |s| <= i ==> !OccursAt(s, CompositionKey, i);
    var attempt := (i: nat) => CompositionAt(s, i);
    assert forall i: nat :: attempt(i) == CompositionAt(s, i);
    match Leftmost(attempt, 0, |s|)
    case None => None
    case Some(i) => CompositionAt(s, i)
  }

  /** The first succeeding attempt is the match: this and the `None` case of
      the contract determine the result on every text. */
  lemma MatchCompositionFirst(s: string, i: nat)
    requires CompositionAt(s, i).Some? && forall k: nat :: k < i ==> CompositionAt(s, k).None?
    ensures MatchComposition(s) == CompositionAt(s, i)
  {
    assert forall i: nat :: |s| <= i ==> !OccursAt(s, CompositionKey, i);
    var attempt := (i: nat) => CompositionAt(s, i);
    assert forall i: nat :: attempt(i) == CompositionAt(s, i);
    LeftmostFirst(attempt, 0, |s|, i);
  }

  /** A text that holds the key followed by escaped text and a quote, after a
      prefix in which no match starts, yields that escaped text, whatever
      follows it. */
  lemma CompositionOfEmbedded(pre: string, t: string, tail: string)
    requires EscapedText(t)
    requires forall k: nat :: k < |pre| ==> CompositionAt(pre + (CompositionKey + (t + "\"" + tail)), k).None?
    ensures MatchComposition(pre + (CompositionKey + (t + "\"" + tail))) == Some(t)
  {
    var u := t + "\"" + tail;
    var s := pre + (CompositionKey + u);
    var p := |pre|;
    var k := |CompositionKey|;
    assert s[p..] == CompositionKey + u;
    assert OccursAt(s, CompositionKey, p) by {
      assert s[p..p + k] == s[p..][..k];
    }
    assert OccursAt(s, t, p + k) by {
      assert s[p + k..p + k + |t|] == u[..|t|];
    }
    assert s[p + k + |t|] == u[|t|];
    CompositionAtOpen(s, p, t);
    MatchCompositionFirst(s, p);
  }

  /** The attempt at the key followed by escaped text and a quote captures
      that text. */
  lemma CompositionAtOpen(s: string, i: nat, t: string)
    requires EscapedText(t) && OccursAt(s, CompositionKey, i) && OccursAt(s, t, i + |CompositionKey|)
    requires i + |CompositionKey| + |t| < |s| && s[i + |CompositionKey| + |t|] == '"'
    ensures CompositionAt(s, i) == Some(t)
  {
    ClosingQuoteFinds(s, i + |CompositionKey|, i + |CompositionKey| + |t|);
  }

  // ---- /<script id="__NEXT_DATA__"[^>]*>([\s\S]*?)<\/script>/ ----

  const ScriptOpen: string := "<script id=\"__NEXT_DATA__\""
  const ScriptClose: string := "</script>"

  /** The attempt to match the script pattern at index `i`: `[^>]*>` runs to
      the first `>` after the opening text, and the lazy `[\s\S]*?` stops at the
      first `</script>` after that. */
  function NextDataAt(s: string, i: nat): (r: Option<string>)
    ensures r.Some? ==> OccursAt(s, ScriptOpen, i) && !Contains(r.value, ScriptClose)
  {
    if OccursAt(s, ScriptOpen, i) then
      match IndexOf(s, ">", i + |ScriptOpen|)
      case None => None
      case Some(g) =>
        match IndexOf(s, ScriptClose, g + 1)
        case None => None
        case Some(c) =>
          NoCloseBefore(s, g + 1, c);
          Some(s[g + 1..c])
    else None
  }

  /** The text before the first `</script>` does not contain one. */
  lemma NoCloseBefore(s: string, from: nat, c: nat)
    requires from <= |s| && IndexOf(s, ScriptClose, from) == Some(c)
    ensures !Contains(s[from..c], ScriptClose)
  {
    var body := s[from..c];
    forall k: nat | OccursAt(body, ScriptClose, k) ensures false {
      assert s[from + k..from + k + |ScriptClose|] == body[k..k + |ScriptClose|];
      assert OccursAt(s, ScriptClose, from + k);
    }
  }

  /** The body of the first `__NEXT_DATA__` script element in `html`. */
  function MatchNextData(html: string): (r: Option<string>)
    ensures r.None? <==> forall i: nat :: NextDataAt(html, i).None?
    ensures r.Some? ==> !Contains(r.value, ScriptClose)
  {
    assert forall i: nat :: |html| <= i ==> !OccursAt(html, ScriptOpen, i);
    var attempt := (i: nat) => NextDataAt(html, i);
    assert forall i: nat :: attempt(i) == NextDataAt(html, i);
    match Leftmost(attempt, 0, |html|)
    case None => None
    case Some(i) => NextDataAt(html, i)
  }

  /** The first opening tag whose attempt succeeds gives the body: this and
      the `None` case of the contract determine the result on every page. */
  lemma MatchNextDataFirst(html: string, i: nat)
    requires NextDataAt(html, i).Some? && forall k: nat :: k < i ==> NextDataAt(html, k).None?
    ensures MatchNextData(html) == NextDataAt(html, i)
  {
    assert forall i: nat :: |html| <= i ==> !OccursAt(html, ScriptOpen, i);
    var attempt := (i: nat) => NextDataAt(html, i);
    assert forall i: nat :: attempt(i) == NextDataAt(html, i);
    LeftmostFirst(attempt, 0, |html|, i);
  }

  /** `[^>]*>` ends at the first `>`. */
  lemma FirstGreaterThan(s: string, from: nat, attrs: string)
    requires from + |attrs| < |s| && s[from..from + |attrs|] == attrs && s[from + |attrs|] == '>'
    requires '>' !in attrs
    ensures IndexOf(s, ">", from) == Some(from + |attrs|)
  {
    var g := from + |attrs|;
    assert s[g..g + 1] == ">";
    forall k: nat | from <= k < g ensures !OccursAt(s, ">", k) {
      assert s[k] == attrs[k - from];
    }
    IndexOfFirst(s, ">", from, g);
  }

  /** The lazy body ends at the first `</script>`, which cannot start inside a
      body that does not contain it: its only `<` is its first character. */
  lemma FirstScriptClose(s: string, from: nat, body: string)
    requires from + |body| <= |s| && s[from..from + |body|] == body
    requires OccursAt(s, ScriptClose, from + |body|) && !Contains(body, ScriptClose)
    ensures IndexOf(s, ScriptClose, from) == Some(from + |body|)
  {
    var c := from + |body|;
    assert forall i :: 0 <= i < |body| ==> body[i] == s[from + i];
    forall k: nat | from <= k < c && k + |ScriptClose| <= c ensures !OccursAt(s, ScriptClose, k) {
      assert body[k - from..k - from + |ScriptClose|] == s[k..k + |ScriptClose|];
      assert !OccursAt(body, ScriptClose, k - from);
    }
    forall k: nat | from <= k < c < k + |ScriptClose| ensures !OccursAt(s, ScriptClose, k) {
      assert s[c] == '<';
      assert ScriptClose[c - k] != '<';
      assert s[k..k + |ScriptClose|][c - k] == '<';
    }
    IndexOfFirst(s, ScriptClose, from, c);
  }

  /** A page holding a `__NEXT_DATA__` script element, after a prefix in
      which no match starts, yields that element's body, provided the
      attributes hold no `>` and the body no `</script>`. */
  lemma NextDataOfPage(pre: string, attrs: string, body: string, tail: string)
    requires '>' !in attrs && !Contains(body, ScriptClose)
    requires forall k: nat :: k < |pre| ==> NextDataAt(pre + (ScriptOpen + attrs + ">" + body + ScriptClose + tail), k).None?
    ensures MatchNextData(pre + (ScriptOpen + attrs + ">" + body + ScriptClose + tail)) == Some(body)
  {
    var s := pre + (ScriptOpen + attrs + ">" + body + ScriptClose + tail);
    var o := |pre| + |ScriptOpen|;
    var g := o + |attrs|;
    var c := g + 1 + |body|;
    assert s[|pre|..o] == ScriptOpen;
    assert s[o..g] == attrs && s[g] == '>';
    assert s[g + 1..c] == body;
    assert s[c..c + |ScriptClose|] == ScriptClose;
    NextDataAtOpen(s, |pre|, attrs, body);
    MatchNextDataFirst(s, |pre|);
  }

  /** The attempt at an opening tag followed by attributes without `>`, `>`,
      a body without `</script>` and `</script>` captures that body. */
  lemma NextDataAtOpen(s: string, i: nat, attrs: string, body: string)
    requires '>' !in attrs && !Contains(body, ScriptClose)
    requires OccursAt(s, ScriptOpen, i)
    requires OccursAt(s, attrs, i + |ScriptOpen|) && OccursAt(s, ">", i + |ScriptOpen| + |attrs|)
    requires OccursAt(s, body, i + |ScriptOpen| + |attrs| + 1)
    requires OccursAt(s, ScriptClose, i + |ScriptOpen| + |attrs| + 1 + |body|)
    ensures NextDataAt(s, i) == Some(body)
  {
    var g := i + |ScriptOpen| + |attrs|;
    assert s[g..g + 1] == ">";
    FirstGreaterThan(s, i + |ScriptOpen|, attrs);
    FirstScriptClose(s, g + 1, body);
  }
}
