/** The extraction helpers content.js repeats under its own names
    (`parseMaterialFromNextData`, `parseSizesFromNextData`, `findItemsInData`),
    proved to agree with those of background.js on every input, and the
    size-badge serialiser `buildSizesHTML`. The per-item callbacks of the
    repeated code are the same text in both files, so they are shared with
    Background. */
module Content {
  import opened Js
  import Patterns
  import Background

  // ---- parseMaterialFromNextData ----

  /** `parseMaterialFromNextData(str)`: the same steps as `parseMaterial`. */
  method ParseMaterialFromNextData(str: string, parse: string -> Option<Json>) returns (r: Option<string>)
    ensures r == Background.MaterialOf(str, parse)
  {
    var m := Patterns.MatchComposition(str);
    if m.None? {
      return None;
    }
    var comp := parse(Background.Unescape(m.value));
    if comp.None? {
      return None;
    }
    var iter := Iterate(comp.value);
    if iter.None? {
      return None;
    }
    var parts := PushAll(iter.value, Background.GroupFormat(|iter.value| > 1));
    if parts.None? {
      return None;
    }
    return Some(Join(parts.value, " · "));
  }

  // ---- findItemsInData ----

  function FindItemsInData(obj: Json): (r: Background.Search)
    ensures r.Found? ==> Background.IsSizeTable(r.items)
  {
    match obj
    case JArr(es) => FindInDataElems(es)
    case JObj(fs) =>
      var items := Member(obj, "items");
      if Truthy(items) && items.value.JArr? && |items.value.elems| > 0 then
        var first := items.value.elems[0];
        if first.JNull? then Background.Threw
        else if Truthy(Member(first, "name")) && Truthy(Member(first, "stock")) then Background.Found(items.value.elems)
        else FindInDataFields(fs)
      else FindInDataFields(fs)
    case _ => Background.NotFound
  }

  function FindInDataElems(es: seq<Json>): (r: Background.Search)
    ensures r.Found? ==> Background.IsSizeTable(r.items)
  {
    if es == [] then Background.NotFound
    else if !FindItemsInData(es[0]).NotFound? then FindItemsInData(es[0])
    else FindInDataElems(es[1..])
  }

  function FindInDataFields(fs: seq<Field>): (r: Background.Search)
    ensures r.Found? ==> Background.IsSizeTable(r.items)
  {
    if fs == [] then Background.NotFound
    else if !FindItemsInData(fs[0].value).NotFound? then FindItemsInData(fs[0].value)
    else FindInDataFields(fs[1..])
  }

  /** The two searches agree on every JSON value. */
  lemma {:induction false} FindItemsInDataAgrees(j: Json)
    ensures FindItemsInData(j) == Background.FindItems(j)
  {
    match j
    case JArr(es) => ElemsAgree(es);
    case JObj(fs) => FieldsAgree(fs);
    case _ =>
  }

  lemma {:induction false} ElemsAgree(es: seq<Json>)
    ensures FindInDataElems(es) == Background.FindInElems(es)
  {
    if es != [] {
      FindItemsInDataAgrees(es[0]);
      ElemsAgree(es[1..]);
    }
  }

  lemma {:induction false} FieldsAgree(fs: seq<Field>)
    ensures FindInDataFields(fs) == Background.FindInFields(fs)
  {
    if fs != [] {
      FindItemsInDataAgrees(fs[0].value);
      FieldsAgree(fs[1..]);
    }
  }

  // ---- parseSizesFromNextData ----

  function ParseSizesFromNextData(str: string, parse: string -> Option<Json>): Option<seq<Background.SizeEntry>>
  {
    match parse(str)
    case None => None
    case Some(data) =>
      match FindItemsInData(data)
      case Found(items) => Background.Normalize(items)
      case _ => None
  }

  /** The two size extractions agree on every input string. */
  lemma ParseSizesFromNextDataAgrees(str: string, parse: string -> Option<Json>)
    ensures ParseSizesFromNextData(str, parse) == Background.ParseSizes(str, parse)
  {
    if parse(str).Some? {
      FindItemsInDataAgrees(parse(str).value);
    }
  }

  // ---- buildSizesHTML ----

  const InStockOpen: string := "<span class=\"cos-size cos-size--in\">"
  const OutOfStockOpen: string := "<span class=\"cos-size cos-size--out\">"
  const SpanClose: string := "</span>"

  /** One size as a span, or `None` where the name does not stringify; the
      name is inserted as it is, without escaping. */
  function SizeSpan(s: Background.SizeEntry): Option<string>
  {
    match ToStr(s.name)
    case None => None
    case Some(name) => Some((if s.inStock then InStockOpen else OutOfStockOpen) + name + SpanClose)
  }

  /** The index of the stock class's first letter, `i` or `o`: the first
      character at which the two opening tags differ. */
  const StockLetter: nat := 32

  /** A span exists exactly when the name stringifies. It is classed
      `cos-size--in` exactly when the size is in stock, and holds the name
      text as it is, between the opening and the closing tag. */
  lemma SpanShape(s: Background.SizeEntry)
    ensures SizeSpan(s).Some? <==> ToStr(s.name).Some?
    ensures SizeSpan(s).Some? ==>
      (Patterns.OccursAt(SizeSpan(s).value, InStockOpen, 0) <==> s.inStock)
      && (Patterns.OccursAt(SizeSpan(s).value, OutOfStockOpen, 0) <==> !s.inStock)
    ensures SizeSpan(s).Some? ==>
      var name := ToStr(s.name).value;
      var open := if s.inStock then |InStockOpen| else |OutOfStockOpen|;
      SizeSpan(s).value[open..open + |name|] == name && SizeSpan(s).value[open + |name|..] == SpanClose
  {
    if ToStr(s.name).Some? {
      var name := ToStr(s.name).value;
      var open := if s.inStock then InStockOpen else OutOfStockOpen;
      assert SizeSpan(s).value == open + (name + SpanClose);
      OpenTagDecides(s.inStock, name + SpanClose);
    }
  }

  /** `buildSizesHTML(sizes)`: nothing for an absent or empty list, otherwise
      the spans concatenated with no separator; the `map` throws with the
      first name that does not stringify. */
  function BuildSizesHTML(sizes: Option<seq<Background.SizeEntry>>): Option<string>
  {
    if sizes.None? || |sizes.value| == 0 then Some("")
    else
      match MapAll(sizes.value, SizeSpan)
      case None => None
      case Some(spans) => Some(Join(spans, ""))
  }

  /** A name that stringifies to a text without `<`. */
  predicate PlainName(s: Background.SizeEntry)
  {
    ToStr(s.name).Some? && '<' !in ToStr(s.name).value
  }

  /** What a reader of the badges sees: the stock state and the name text. */
  function Badges(sizes: seq<Background.SizeEntry>): (r: seq<(bool, string)>)
    requires forall i :: 0 <= i < |sizes| ==> ToStr(sizes[i].name).Some?
    ensures |r| == |sizes| && forall i :: 0 <= i < |sizes| ==> r[i] == (sizes[i].inStock, ToStr(sizes[i].name).value)
  {
    seq(|sizes|, i requires 0 <= i < |sizes| => (sizes[i].inStock, ToStr(sizes[i].name).value))
  }

  /** Absent or empty lists give the empty string. */
  lemma BuildSizesHTMLEmpty()
    ensures BuildSizesHTML(None) == Some("")
    ensures BuildSizesHTML(Some([])) == Some("")
  {
  }

  /** The serialisation throws exactly when some name does not stringify. */
  lemma BuildSizesHTMLThrows(sizes: seq<Background.SizeEntry>)
    ensures BuildSizesHTML(Some(sizes)).None? <==> exists i :: 0 <= i < |sizes| && ToStr(sizes[i].name).None?
  {
    MapAllAt(sizes, SizeSpan);
  }

  /** Two texts concatenated, or `None` when either computation throws. */
  function Both(x: Option<string>, y: Option<string>): Option<string>
  {
    if x.Some? && y.Some? then Some(x.value + y.value) else None
  }

  lemma BothAssociates(x: Option<string>, y: Option<string>, z: Option<string>)
    ensures Both(x, Both(y, z)) == Both(Both(x, y), z)
  {
    if x.Some? && y.Some? && z.Some? {
      assert x.value + (y.value + z.value) == (x.value + y.value) + z.value;
    }
  }

  /** One span per size, in order, with no separator: the serialisation of a
      list is the span of its head followed by that of its tail, and it throws
      when either does. */
  lemma BuildSizesHTMLCons(s: Background.SizeEntry, rest: seq<Background.SizeEntry>)
    ensures BuildSizesHTML(Some([s] + rest)) == Both(SizeSpan(s), BuildSizesHTML(Some(rest)))
  {
    var l := [s] + rest;
    assert l[0] == s && l[1..] == rest;
    if SizeSpan(s).Some? && MapAll(rest, SizeSpan).Some? {
      var spans := MapAll(rest, SizeSpan).value;
      assert MapAll(l, SizeSpan) == Some([SizeSpan(s).value] + spans);
      JoinEmptySeparatorConcat([SizeSpan(s).value], spans);
      if rest == [] {
        assert spans == [];
      }
    }
  }

  /** Serialising distributes over concatenation of size lists. */
  lemma {:induction false} BuildSizesHTMLConcat(a: seq<Background.SizeEntry>, b: seq<Background.SizeEntry>)
    ensures BuildSizesHTML(Some(a + b)) == Both(BuildSizesHTML(Some(a)), BuildSizesHTML(Some(b)))
  {
    if a == [] {
      assert a + b == b;
      if BuildSizesHTML(Some(b)).Some? {
        assert "" + BuildSizesHTML(Some(b)).value == BuildSizesHTML(Some(b)).value;
      }
    } else {
      assert a + b == [a[0]] + (a[1..] + b);
      assert a == [a[0]] + a[1..];
      BuildSizesHTMLConcat(a[1..], b);
      BuildSizesHTMLCons(a[0], a[1..] + b);
      BuildSizesHTMLCons(a[0], a[1..]);
      BothAssociates(SizeSpan(a[0]), BuildSizesHTML(Some(a[1..])), BuildSizesHTML(Some(b)));
    }
  }

  /** The number of characters before the first `<`. */
  function TextLength(s: string): (n: nat)
    ensures n <= |s| && '<' !in s[..n] && (n < |s| ==> s[n] == '<')
  {
    if s == [] || s[0] == '<' then 0
    else
      var n := TextLength(s[1..]);
      assert s[..n + 1] == [s[0]] + s[1..][..n];
      n + 1
  }

  /** Reads one size span at the front of `html`: its stock state, its text,
      and its length. */
  function SpanAt(html: string): (r: Option<(bool, string, nat)>)
    ensures r.Some? ==> 0 < r.value.2 <= |html|
  {
    var inStock := Patterns.OccursAt(html, InStockOpen, 0);
    if !inStock && !Patterns.OccursAt(html, OutOfStockOpen, 0) then None
    else
      var open := if inStock then InStockOpen else OutOfStockOpen;
      var rest := html[|open|..];
      var n := TextLength(rest);
      if !Patterns.OccursAt(rest[n..], SpanClose, 0) then None
      else Some((inStock, rest[..n], |open| + n + |SpanClose|))
  }

  /** Reads back a sequence of size spans as (in stock, name text) pairs. */
  function ParseSpans(html: string): Option<seq<(bool, string)>>
    decreases |html|
  {
    if html == [] then Some([])
    else
      match SpanAt(html)
      case None => None
      case Some((inStock, text, len)) =>
        match ParseSpans(html[len..])
        case None => None
        case Some(more) => Some([(inStock, text)] + more)
  }

  lemma TextLengthOf(name: string, tail: string)
    requires '<' !in name && tail != [] && tail[0] == '<'
    ensures TextLength(name + tail) == |name|
    decreases |name|
  {
    if name != [] {
      assert (name + tail)[1..] == name[1..] + tail;
      TextLengthOf(name[1..], tail);
    } else {
      assert name + tail == tail;
    }
  }

  /** The opening tag at the front decides the stock state read back. */
  lemma OpenTagDecides(inStock: bool, rest: string)
    ensures var open := if inStock then InStockOpen else OutOfStockOpen;
      Patterns.OccursAt(open + rest, InStockOpen, 0) == inStock &&
      Patterns.OccursAt(open + rest, OutOfStockOpen, 0) == !inStock
  {
    var html := (if inStock then InStockOpen else OutOfStockOpen) + rest;
    if inStock {
      assert html[..|InStockOpen|] == InStockOpen;
      assert html[StockLetter] == 'i' && OutOfStockOpen[StockLetter] == 'o';
    } else {
      assert html[..|OutOfStockOpen|] == OutOfStockOpen;
      assert html[StockLetter] == 'o' && InStockOpen[StockLetter] == 'i';
    }
  }

  lemma SpanAtParts(inStock: bool, name: string, tail: string)
    requires '<' !in name
    ensures var open := if inStock then InStockOpen else OutOfStockOpen;
      SpanAt(open + name + SpanClose + tail) == Some((inStock, name, |open| + |name| + |SpanClose|))
  {
    var open := if inStock then InStockOpen else OutOfStockOpen;
    var html := open + name + SpanClose + tail;
    assert html == open + (name + SpanClose + tail);
    OpenTagDecides(inStock, name + SpanClose + tail);
    var rest := html[|open|..];
    assert rest == name + (SpanClose + tail);
    TextLengthOf(name, SpanClose + tail);
    assert rest[..|name|] == name;
    assert rest[|name|..] == SpanClose + tail;
    assert rest[|name|..][..|SpanClose|] == SpanClose;
  }

  lemma SpanAtSize(s: Background.SizeEntry, tail: string)
    requires PlainName(s)
    ensures SizeSpan(s).Some? && SpanAt(SizeSpan(s).value + tail) == Some((s.inStock, ToStr(s.name).value, |SizeSpan(s).value|))
  {
    SpanAtParts(s.inStock, ToStr(s.name).value, tail);
  }

  lemma ParseSpanHead(s: Background.SizeEntry, tail: string, more: seq<(bool, string)>)
    requires PlainName(s) && ParseSpans(tail) == Some(more)
    ensures SizeSpan(s).Some? && ParseSpans(SizeSpan(s).value + tail) == Some([(s.inStock, ToStr(s.name).value)] + more)
  {
    SpanAtSize(s, tail);
    var html := SizeSpan(s).value + tail;
    assert html[|SizeSpan(s).value|..] == tail;
  }

  /** When every name stringifies to a text without `<`, the serialisation
      can be read back: it is exactly one span per size, in order, classed by
      the stock state. */
  lemma {:induction false} BuildSizesHTMLReadsBack(sizes: seq<Background.SizeEntry>)
    requires forall i :: 0 <= i < |sizes| ==> ToStr(sizes[i].name).Some? && '<' !in ToStr(sizes[i].name).value
    ensures BuildSizesHTML(Some(sizes)).Some? && ParseSpans(BuildSizesHTML(Some(sizes)).value) == Some(Badges(sizes))
  {
    if sizes != [] {
      var rest := sizes[1..];
      assert forall i :: 0 <= i < |rest| ==> rest[i] == sizes[i + 1];
      BuildSizesHTMLReadsBack(rest);
      ReadsBackStep(sizes[0], rest);
      assert sizes == [sizes[0]] + rest;
    }
  }

  lemma BadgesCons(s: Background.SizeEntry, rest: seq<Background.SizeEntry>)
    requires ToStr(s.name).Some? && forall i :: 0 <= i < |rest| ==> ToStr(rest[i].name).Some?
    ensures forall i :: 0 <= i < |[s] + rest| ==> ToStr(([s] + rest)[i].name).Some?
    ensures Badges([s] + rest) == [(s.inStock, ToStr(s.name).value)] + Badges(rest)
  {
    var l := [s] + rest;
    assert forall i :: 0 < i < |l| ==> l[i] == rest[i - 1];
  }

  lemma ReadsBackStep(s: Background.SizeEntry, rest: seq<Background.SizeEntry>)
    requires PlainName(s)
    requires forall i :: 0 <= i < |rest| ==> ToStr(rest[i].name).Some? && '<' !in ToStr(rest[i].name).value
    requires BuildSizesHTML(Some(rest)).Some? && ParseSpans(BuildSizesHTML(Some(rest)).value) == Some(Badges(rest))
    ensures BuildSizesHTML(Some([s] + rest)).Some?
    ensures forall i :: 0 <= i < |[s] + rest| ==> ToStr(([s] + rest)[i].name).Some?
    ensures ParseSpans(BuildSizesHTML(Some([s] + rest)).value) == Some(Badges([s] + rest))
  {
    var tail := BuildSizesHTML(Some(rest)).value;
    BuildSizesHTMLCons(s, rest);
    ParseSpanHead(s, tail, Badges(rest));
    BadgesCons(s, rest);
  }

  /** The name is not escaped: markup in a name becomes markup in the badge. */
  lemma NameIsNotEscaped()
    ensures SizeSpan(Background.SizeEntry(Some(JStr("<b>M</b>")), true)) == Some("<span class=\"cos-size cos-size--in\"><b>M</b></span>")
  {
    assert ToStr(Some(JStr("<b>M</b>"))) == Some("<b>M</b>");
    assert SizeSpan(Background.SizeEntry(Some(JStr("<b>M</b>")), true)) == Some(InStockOpen + "<b>M</b>" + SpanClose);
    assert InStockOpen + "<b>M</b>" + SpanClose == "<span class=\"cos-size cos-size--in\"><b>M</b></span>";
  }
}
