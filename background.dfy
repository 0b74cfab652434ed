/** The extraction engine of background.js: the composition text
    (`parseMaterial`), the size-table search (`findItems`), the stock
    normalisation (`parseSizes`) and what `fetchProduct` builds from the page
    text once it has been fetched. `JSON.parse` is the parameter `parse`, which
    returns `None` where it throws. */
module Background {
  import opened Js
  import Patterns

  /** One size, `{name, inStock}`: `name` is the item's `name` property as it
      is (`None` is `undefined`). */
  datatype SizeEntry = SizeEntry(name: Option<Json>, inStock: bool)

  /** The outcome of the size-table search: it threw, found nothing, or found
      an `items` array (given by its elements). */
  datatype Search = Threw | NotFound | Found(items: seq<Json>)

  /** What `fetchProduct` resolves to once the page text is in hand. */
  datatype Product =
    | Failed(error: string)
    | Extracted(material: Option<string>, sizes: Option<seq<SizeEntry>>)

  const NoNextDataError: string := "No __NEXT_DATA__ found"

  // ---- Composition: parseMaterial ----

  /** How a JSON string value embeds a text without control characters:
      backslash and quote are escaped, every other character is kept. */
  function Escape(t: string): (r: string)
    ensures Patterns.EscapedText(r)
    ensures r != [] ==> r[0] != '"'
  {
    if t == [] then []
    else
      var head := if t[0] == '\\' || t[0] == '"' then ['\\', t[0]] else [t[0]];
      var rest := Escape(t[1..]);
      assert (head + rest)[|head|..] == rest;
      head + rest
  }

  /** The two sequential replace-alls: `\"` becomes `"`, then `\\` becomes `\`. */
  function Unescape(raw: string): string
  {
    ReplaceAll(ReplaceAll(raw, "\\\"", "\""), "\\\\", "\\")
  }

  /** Escaping only the backslashes: what the first replace-all leaves of an
      escaped text. */
  function EscapeBackslashes(t: string): string
  {
    if t == [] then []
    else (if t[0] == '\\' then ['\\', '\\'] else [t[0]]) + EscapeBackslashes(t[1..])
  }

  lemma {:induction false} QuotesUnescaped(t: string)
    ensures ReplaceAll(Escape(t), "\\\"", "\"") == EscapeBackslashes(t)
  {
    if t != [] {
      var e := Escape(t[1..]);
      QuotesUnescaped(t[1..]);
      var s := Escape(t);
      if t[0] == '"' {
        assert s == ['\\', '"'] + e;
        assert s[2..] == e;
      } else if t[0] == '\\' {
        assert s == ['\\', '\\'] + e;
        EscapedBackslashKept(e);
      } else {
        assert s == [t[0]] + e;
        assert s[1..] == e;
      }
    }
  }

  /** An escaped backslash is not the start of an escaped quote, because an
      escaped text never starts with a quote. */
  lemma EscapedBackslashKept(e: string)
    requires e == [] || e[0] != '"'
    ensures ReplaceAll(['\\', '\\'] + e, "\\\"", "\"") == ['\\', '\\'] + ReplaceAll(e, "\\\"", "\"")
  {
    var s := ['\\', '\\'] + e;
    assert s[1..] == ['\\'] + e;
    assert s[1..][1..] == e;
    if e == [] {
      assert ReplaceAll(s[1..], "\\\"", "\"") == "\\";
    } else {
      assert s[1..][..2] != "\\\"";
    }
  }

  lemma {:induction false} BackslashesUnescaped(t: string)
    ensures ReplaceAll(EscapeBackslashes(t), "\\\\", "\\") == t
  {
    if t != [] {
      var e := EscapeBackslashes(t[1..]);
      BackslashesUnescaped(t[1..]);
      var s := EscapeBackslashes(t);
      if t[0] == '\\' {
        assert s == ['\\', '\\'] + e;
        assert s[2..] == e;
      } else {
        assert s == [t[0]] + e;
        assert s[1..] == e;
      }
      assert t == [t[0]] + t[1..];
    }
  }

  /** The unescaping undoes the embedding: for every text `t`. */
  lemma UnescapeEscape(t: string)
    ensures Unescape(Escape(t)) == t
  {
    QuotesUnescaped(t);
    BackslashesUnescaped(t);
  }

  /** `${m.percentage}% ${m.material}`; reading a property of null throws, and
      so does stringifying a value that does not convert. */
  function MaterialText(m: Json): Option<string>
  {
    if m.JNull? then None
    else
      match (ToStr(Member(m, "percentage")), ToStr(Member(m, "material")))
      case (Some(pct), Some(mat)) => Some(pct + "% " + mat)
      case _ => None
  }

  /** `group.materials.map(...).join(', ')`: anything but an array has no
      `map` to call. */
  function MaterialsText(materials: Option<Json>): Option<string>
  {
    match materials
    case Some(JArr(ms)) =>
      (match MapAll(ms, MaterialText)
       case None => None
       case Some(texts) => Some(Join(texts, ", ")))
    case _ => None
  }

  /** One entry of `parts`: the `type: ` label when `labelled`, then the
      materials. The label is computed first; either part may throw. */
  function GroupText(group: Json, labelled: bool): Option<string>
  {
    if group.JNull? then None
    else
      match (if labelled then (match ToStr(Member(group, "type")) case None => None case Some(t) => Some(t + ": ")) else Some(""))
      case None => None
      case Some(prefix) =>
        match MaterialsText(Member(group, "materials"))
        case None => None
        case Some(mats) => Some(prefix + mats)
  }

  function LabelledGroupText(group: Json): Option<string>
  {
    GroupText(group, true)
  }

  function UnlabelledGroupText(group: Json): Option<string>
  {
    GroupText(group, false)
  }

  /** The per-group rendering the loop applies, with or without labels. */
  function GroupFormat(labelled: bool): (format: Json -> Option<string>)
    ensures forall g :: format(g) == GroupText(g, labelled)
  {
    if labelled then LabelledGroupText else UnlabelledGroupText
  }

  /** The texts of all groups, or `None` if any of them throws. */
  function GroupTexts(groups: seq<Json>, labelled: bool): (r: Option<seq<string>>)
    ensures r.Some? ==> |r.value| == |groups|
  {
    MapAll(groups, GroupFormat(labelled))
  }

  lemma GroupTextsAt(groups: seq<Json>, labelled: bool)
    ensures GroupTexts(groups, labelled).Some? <==> forall i :: 0 <= i < |groups| ==> GroupText(groups[i], labelled).Some?
    ensures GroupTexts(groups, labelled).Some? ==>
      forall i :: 0 <= i < |groups| ==> GroupText(groups[i], labelled) == Some(GroupTexts(groups, labelled).value[i])
  {
    MapAllAt(groups, GroupFormat(labelled));
  }

  /** The decoded composition rendered as the loop of `parseMaterial` does:
      labels only when there is more than one group, groups joined by ` · `. */
  function RenderComposition(comp: Json): Option<string>
  {
    match Iterate(comp)
    case None => None
    case Some(groups) =>
      match GroupTexts(groups, |groups| > 1)
      case None => None
      case Some(parts) => Some(Join(parts, " · "))
  }

  /** What `parseMaterial(str)` returns. */
  function MaterialOf(str: string, parse: string -> Option<Json>): Option<string>
  {
    match Patterns.MatchComposition(str)
    case None => None
    case Some(raw) =>
      match parse(Unescape(raw))
      case None => None
      case Some(comp) => RenderComposition(comp)
  }

  method ParseMaterial(str: string, parse: string -> Option<Json>) returns (r: Option<string>)
    ensures r == MaterialOf(str, parse)
  {
    var m := Patterns.MatchComposition(str);
    if m.None? {
      return None;
    }
    var comp := parse(Unescape(m.value));
    if comp.None? {
      return None;
    }
    r := FormatComposition(comp.value);
  }

  /** The `for...of` loop of `parseMaterial`, which pushes one text per group
      into `parts`, and the final join. */
  method FormatComposition(comp: Json) returns (r: Option<string>)
    ensures r == RenderComposition(comp)
  {
    var iter := Iterate(comp);
    if iter.None? {
      return None;
    }
    var parts := PushAll(iter.value, GroupFormat(|iter.value| > 1));
    if parts.None? {
      return None;
    }
    return Some(Join(parts.value, " · "));
  }

  // ---- Properties of the composition text ----

  /** No match: the key is absent, or every occurrence of it opens a quoted
      value that is never closed. */
  lemma MaterialWithoutClosedKey(str: string, parse: string -> Option<Json>)
    requires forall i: nat :: Patterns.OccursAt(str, Patterns.CompositionKey, i) ==>
      Patterns.ClosingQuote(str, i + |Patterns.CompositionKey|).None?
    ensures MaterialOf(str, parse) == None
  {
    assert forall i: nat :: Patterns.CompositionAt(str, i).None?;
  }

  /** A text embedding the composition text `t` as a JSON string value, after
      a prefix in which no match starts, renders what `t` decodes to, or
      nothing if it does not decode. */
  lemma MaterialOfEmbedded(pre: string, t: string, tail: string, parse: string -> Option<Json>)
    requires forall k: nat :: k < |pre| ==>
      Patterns.CompositionAt(pre + (Patterns.CompositionKey + (Escape(t) + "\"" + tail)), k).None?
    ensures MaterialOf(pre + (Patterns.CompositionKey + (Escape(t) + "\"" + tail)), parse) ==
      (match parse(t) case None => None case Some(comp) => RenderComposition(comp))
  {
    Patterns.CompositionOfEmbedded(pre, Escape(t), tail);
    UnescapeEscape(t);
  }

  /** A material entry converts when it is not null and both its `percentage`
      and its `material` stringify. */
  predicate EntryConverts(m: Json)
  {
    m != JNull && ToStr(Member(m, "percentage")).Some? && ToStr(Member(m, "material")).Some?
  }

  /** Within a group the materials are `percentage% material` in order, joined
      by `, `, after the `type: ` label when the group is labelled. A group
      renders exactly when it is not null, its label (if any) stringifies, and
      its `materials` is an array of entries that convert. */
  lemma GroupTextShape(group: Json, labelled: bool)
    ensures GroupText(group, labelled).Some? <==>
      group != JNull && (labelled ==> ToStr(Member(group, "type")).Some?)
      && Member(group, "materials").Some? && Member(group, "materials").value.JArr?
      && forall k :: 0 <= k < |Member(group, "materials").value.elems| ==> EntryConverts(Member(group, "materials").value.elems[k])
    ensures GroupText(group, labelled).Some? ==>
      var ms := Member(group, "materials").value.elems;
      GroupText(group, labelled).value ==
        (if labelled then ToStr(Member(group, "type")).value + ": " else "")
        + Join(seq(|ms|, k requires 0 <= k < |ms| && EntryConverts(ms[k]) =>
                 ToStr(Member(ms[k], "percentage")).value + "% " + ToStr(Member(ms[k], "material")).value), ", ")
  {
    if group != JNull && Member(group, "materials").Some? && Member(group, "materials").value.JArr? {
      MaterialTexts(Member(group, "materials").value.elems);
    }
  }

  /** The materials render exactly when every entry converts, as their
      entries in order. */
  lemma MaterialTexts(ms: seq<Json>)
    ensures MapAll(ms, MaterialText).Some? <==> forall k :: 0 <= k < |ms| ==> EntryConverts(ms[k])
    ensures MapAll(ms, MaterialText).Some? ==>
      MapAll(ms, MaterialText).value == seq(|ms|, k requires 0 <= k < |ms| && EntryConverts(ms[k]) =>
        ToStr(Member(ms[k], "percentage")).value + "% " + ToStr(Member(ms[k], "material")).value)
  {
    MapAllAt(ms, MaterialText);
  }

  /** Groups are rendered in order and joined by ` · `; the whole render fails
      as soon as one group does. */
  lemma RenderedGroups(groups: seq<Json>)
    ensures RenderComposition(JArr(groups)).Some? <==> forall i :: 0 <= i < |groups| ==> GroupText(groups[i], |groups| > 1).Some?
    ensures RenderComposition(JArr(groups)).Some? ==>
      RenderComposition(JArr(groups)).value ==
        Join(seq(|groups|, i requires 0 <= i < |groups| && GroupText(groups[i], |groups| > 1).Some? => GroupText(groups[i], |groups| > 1).value), " · ")
  {
    GroupTextsAt(groups, |groups| > 1);
    if GroupTexts(groups, |groups| > 1).Some? {
      var parts := GroupTexts(groups, |groups| > 1).value;
      assert parts == seq(|groups|, i requires 0 <= i < |groups| && GroupText(groups[i], |groups| > 1).Some? => GroupText(groups[i], |groups| > 1).value);
    }
  }

  /** A single group has no label. */
  lemma SingleGroupUnlabelled(group: Json)
    ensures RenderComposition(JArr([group])) == GroupText(group, false)
  {
    assert [group][1..] == [];
    assert Iterate(JArr([group])) == Some([group]);
    match GroupText(group, false)
    case None =>
    case Some(t) =>
      assert [t] + [] == [t];
      MapAllSnoc([], group, GroupFormat(false), [], t);
      assert [] + [group] == [group] && [] + [t] == [t];
  }

  /** With two or more groups every group carries its `type: ` label. */
  lemma {:induction false} SeveralGroupsLabelled(groups: seq<Json>, i: nat)
    requires |groups| >= 2 && i < |groups| && RenderComposition(JArr(groups)).Some?
    ensures GroupText(groups[i], true).Some? && ToStr(Member(groups[i], "type")).Some?
    ensures Patterns.OccursAt(GroupText(groups[i], true).value, ToStr(Member(groups[i], "type")).value + ": ", 0)
  {
    RenderedGroups(groups);
    GroupTextShape(groups[i], true);
  }

  /** An empty composition renders as the empty string, not as nothing; so does
      the empty string, the one iterable scalar with no elements. */
  lemma EmptyCompositions()
    ensures RenderComposition(JArr([])) == Some("")
    ensures RenderComposition(JStr("")) == Some("")
  {
  }

  /** A value `for...of` cannot iterate, a non-empty string (its characters
      have no `materials`), and a group without a `materials` array all make the
      render fail. */
  lemma RenderFailures(comp: Json, groups: seq<Json>, i: nat)
    ensures !comp.JArr? && !comp.JStr? ==> RenderComposition(comp) == None
    ensures comp.JStr? && comp.s != "" ==> RenderComposition(comp) == None
    ensures i < |groups| && (groups[i] == JNull || Member(groups[i], "materials").None? || !Member(groups[i], "materials").value.JArr?) ==>
      RenderComposition(JArr(groups)) == None
  {
    if comp.JStr? && comp.s != "" {
      var gs := Iterate(comp).value;
      assert gs[0] == JStr([comp.s[0]]);
      assert GroupText(gs[0], |gs| > 1).None?;
      MapAllFail(gs, GroupFormat(|gs| > 1), 0);
    }
    if i < |groups| && (groups[i] == JNull || Member(groups[i], "materials").None? || !Member(groups[i], "materials").value.JArr?) {
      assert GroupText(groups[i], |groups| > 1).None?;
      MapAllFail(groups, GroupFormat(|groups| > 1), i);
    }
  }

  /** A label that cannot be stringified makes the whole render fail, as
      `${group.type}` throws on an object with its own `toString`. */
  lemma UnconvertibleTypeFails()
    ensures
      var g1 := JObj([Field("type", JObj([Field("toString", JNum(1))])), Field("materials", JArr([]))]);
      var g2 := JObj([Field("type", JStr("B")), Field("materials", JArr([]))]);
      RenderComposition(JArr([g1, g2])) == None
  {
    var g1 := JObj([Field("type", JObj([Field("toString", JNum(1))])), Field("materials", JArr([]))]);
    var g2 := JObj([Field("type", JStr("B")), Field("materials", JArr([]))]);
    assert ToStr(Member(g1, "type")).None?;
    assert GroupText(g1, true).None?;
    MapAllFail([g1, g2], GroupFormat(true), 0);
  }

  // ---- The size table: findItems ----

  /** The first item looks like a size: it is not null and has a truthy `name`
      and a truthy `stock`. */
  predicate IsSizeTable(items: seq<Json>)
  {
    |items| > 0 && !items[0].JNull? && Truthy(Member(items[0], "name")) && Truthy(Member(items[0], "stock"))
  }

  /** The test of an object's own `items`: the list when it is an array that
      qualifies, a throw when it is an array whose first element is null. */
  function ItemsTable(fields: seq<Field>): (r: Search)
    ensures r.Found? <==> (var items := Member(JObj(fields), "items");
      items.Some? && items.value.JArr? && IsSizeTable(items.value.elems))
    ensures r.Found? ==> Member(JObj(fields), "items") == Some(JArr(r.items))
    ensures r.Threw? <==> (var items := Member(JObj(fields), "items");
      items.Some? && items.value.JArr? && |items.value.elems| > 0 && items.value.elems[0] == JNull)
  {
    var items := Member(JObj(fields), "items");
    if !Truthy(items) || !items.value.JArr? || |items.value.elems| == 0 then NotFound
    else if items.value.elems[0].JNull? then Threw
    else if Truthy(Member(items.value.elems[0], "name")) && Truthy(Member(items.value.elems[0], "stock")) then Found(items.value.elems)
    else NotFound
  }

  function FindItems(j: Json): (r: Search)
    ensures r.Found? ==> IsSizeTable(r.items)
  {
    match j
    case JArr(es) => FindInElems(es)
    case JObj(fs) => if ItemsTable(fs).NotFound? then FindInFields(fs) else ItemsTable(fs)
    case _ => NotFound
  }

  /** The loop over an array's elements: the first result that is not
      `NotFound` wins. */
  function FindInElems(es: seq<Json>): (r: Search)
    ensures r.Found? ==> IsSizeTable(r.items)
  {
    if es == [] then NotFound
    else if !FindItems(es[0]).NotFound? then FindItems(es[0])
    else FindInElems(es[1..])
  }

  /** The loop over an object's fields in key order. */
  function FindInFields(fs: seq<Field>): (r: Search)
    ensures r.Found? ==> IsSizeTable(r.items)
  {
    if fs == [] then NotFound
    else if !FindItems(fs[0].value).NotFound? then FindItems(fs[0].value)
    else FindInFields(fs[1..])
  }

  /** Some object at any depth of `j` gives `c` for its own `items` test. */
  ghost predicate HasCheck(j: Json, c: Search)
  {
    match j
    case JArr(es) => exists i :: 0 <= i < |es| && HasCheck(es[i], c)
    case JObj(fs) => ItemsTable(fs) == c || exists i :: 0 <= i < |fs| && HasCheck(fs[i].value, c)
    case _ => false
  }

  /** Whatever the search stops at is the test outcome of an object inside `j`. */
  lemma {:induction false} FindItemsSound(j: Json)
    ensures !FindItems(j).NotFound? ==> HasCheck(j, FindItems(j))
  {
    match j
    case JArr(es) => FindInElemsSound(es);
    case JObj(fs) => FindInFieldsSound(fs);
    case _ =>
  }

  lemma {:induction false} FindInElemsSound(es: seq<Json>)
    ensures !FindInElems(es).NotFound? ==> exists i :: 0 <= i < |es| && HasCheck(es[i], FindInElems(es))
  {
    if es != [] {
      FindItemsSound(es[0]);
      FindInElemsSound(es[1..]);
      if FindItems(es[0]).NotFound? && !FindInElems(es[1..]).NotFound? {
        var i :| 0 <= i < |es[1..]| && HasCheck(es[1..][i], FindInElems(es[1..]));
        assert HasCheck(es[i + 1], FindInElems(es));
      }
    }
  }

  lemma {:induction false} FindInFieldsSound(fs: seq<Field>)
    ensures !FindInFields(fs).NotFound? ==> exists i :: 0 <= i < |fs| && HasCheck(fs[i].value, FindInFields(fs))
  {
    if fs != [] {
      FindItemsSound(fs[0].value);
      FindInFieldsSound(fs[1..]);
      if FindItems(fs[0].value).NotFound? && !FindInFields(fs[1..]).NotFound? {
        var i :| 0 <= i < |fs[1..]| && HasCheck(fs[1..][i].value, FindInFields(fs[1..]));
        assert HasCheck(fs[i + 1].value, FindInFields(fs));
      }
    }
  }

  /** An object inside `j` whose test qualifies or throws stops the search. */
  lemma {:induction false} FindItemsComplete(j: Json, c: Search)
    requires HasCheck(j, c) && !c.NotFound?
    ensures !FindItems(j).NotFound?
  {
    match j
    case JArr(es) =>
      var i :| 0 <= i < |es| && HasCheck(es[i], c);
      FindInElemsComplete(es, i, c);
    case JObj(fs) =>
      if ItemsTable(fs).NotFound? {
        var i :| 0 <= i < |fs| && HasCheck(fs[i].value, c);
        FindInFieldsComplete(fs, i, c);
      }
  }

  lemma {:induction false} FindInElemsComplete(es: seq<Json>, i: nat, c: Search)
    requires i < |es| && HasCheck(es[i], c) && !c.NotFound?
    ensures !FindInElems(es).NotFound?
    decreases es, i
  {
    if i == 0 {
      FindItemsComplete(es[0], c);
    } else if FindItems(es[0]).NotFound? {
      assert es[1..][i - 1] == es[i];
      FindInElemsComplete(es[1..], i - 1, c);
    }
  }

  lemma {:induction false} FindInFieldsComplete(fs: seq<Field>, i: nat, c: Search)
    requires i < |fs| && HasCheck(fs[i].value, c) && !c.NotFound?
    ensures !FindInFields(fs).NotFound?
    decreases fs, i
  {
    if i == 0 {
      FindItemsComplete(fs[0].value, c);
    } else if FindItems(fs[0].value).NotFound? {
      assert fs[1..][i - 1] == fs[i];
      FindInFieldsComplete(fs[1..], i - 1, c);
    }
  }

  /** The search finds nothing exactly when no object inside `j` has `items`
      that qualify or throw; it then terminates with `NotFound`. */
  lemma FindItemsNotFoundIff(j: Json)
    ensures FindItems(j).NotFound? <==> !HasCheck(j, Threw) && forall t :: !HasCheck(j, Found(t))
  {
    FindItemsSound(j);
    if HasCheck(j, Threw) {
      FindItemsComplete(j, Threw);
    }
    forall t | HasCheck(j, Found(t)) ensures !FindItems(j).NotFound? {
      FindItemsComplete(j, Found(t));
    }
  }

  /** When exactly one list in the tree qualifies and nothing throws, the
      search returns that list, whatever its depth or key. */
  lemma UniqueTableFound(j: Json, items: seq<Json>)
    requires HasCheck(j, Found(items)) && !HasCheck(j, Threw)
    requires forall t :: HasCheck(j, Found(t)) ==> t == items
    ensures FindItems(j) == Found(items)
  {
    FindItemsComplete(j, Found(items));
    FindItemsSound(j);
  }

  /** Null and the scalars are not searched. */
  lemma FindItemsScalars(j: Json)
    requires !j.JArr? && !j.JObj?
    ensures FindItems(j) == NotFound
  {
  }

  /** On an array: elements are searched in order and the first element whose
      search does not come back empty decides the result. */
  lemma {:induction false} FindInArrayFirstHit(es: seq<Json>, i: nat)
    requires i <= |es|
    requires forall k :: 0 <= k < i ==> FindItems(es[k]).NotFound?
    ensures i == |es| ==> FindItems(JArr(es)) == NotFound
    ensures i < |es| && !FindItems(es[i]).NotFound? ==> FindItems(JArr(es)) == FindItems(es[i])
    decreases i
  {
    if i > 0 {
      assert forall k :: 0 <= k < i - 1 ==> es[1..][k] == es[k + 1];
      FindInArrayFirstHit(es[1..], i - 1);
    }
  }

  /** On an object: its own `items` is tested before any field; failing that,
      fields are searched in key order and the first one that is not empty
      decides. */
  lemma {:induction false} FindInObjectFirstHit(fs: seq<Field>, i: nat)
    requires i <= |fs|
    requires forall k :: 0 <= k < i ==> FindItems(fs[k].value).NotFound?
    ensures !ItemsTable(fs).NotFound? ==> FindItems(JObj(fs)) == ItemsTable(fs)
    ensures ItemsTable(fs).NotFound? && i == |fs| ==> FindItems(JObj(fs)) == NotFound
    ensures ItemsTable(fs).NotFound? && i < |fs| && !FindItems(fs[i].value).NotFound? ==> FindItems(JObj(fs)) == FindItems(fs[i].value)
  {
    FieldsFirstHit(fs, i);
  }

  lemma {:induction false} FieldsFirstHit(fs: seq<Field>, i: nat)
    requires i <= |fs|
    requires forall k :: 0 <= k < i ==> FindItems(fs[k].value).NotFound?
    ensures i == |fs| ==> FindInFields(fs) == NotFound
    ensures i < |fs| && !FindItems(fs[i].value).NotFound? ==> FindInFields(fs) == FindItems(fs[i].value)
    decreases i
  {
    if i > 0 {
      assert forall k :: 0 <= k < i - 1 ==> fs[1..][k] == fs[k + 1];
      FieldsFirstHit(fs[1..], i - 1);
    }
  }

  // ---- Stock normalisation: parseSizes ----

  const OutOfStockTokens: set<string> := {"no", "out_of_stock", "oos"}

  /** `item.stock !== 'no' && item.stock !== 'out_of_stock' && item.stock !== 'oos'` */
  function InStock(stock: Option<Json>): (r: bool)
    ensures !r <==> stock.Some? && stock.value.JStr? && stock.value.s in OutOfStockTokens
  {
    stock != Some(JStr("no")) && stock != Some(JStr("out_of_stock")) && stock != Some(JStr("oos"))
  }

  /** The filter callback `item => item.name && item.stock`. */
  function KeepItem(item: Json): (r: Option<bool>)
    ensures r.None? <==> item.JNull?
  {
    if item.JNull? then None
    else Some(Truthy(Member(item, "name")) && Truthy(Member(item, "stock")))
  }

  /** The map callback. */
  function ToEntry(item: Json): (e: SizeEntry)
    ensures e.name == Member(item, "name")
    ensures !e.inStock <==> Member(item, "stock") in {Some(JStr("no")), Some(JStr("out_of_stock")), Some(JStr("oos"))}
  {
    SizeEntry(Member(item, "name"), InStock(Member(item, "stock")))
  }

  /** The filter, then the map, over the located list. */
  function Normalize(items: seq<Json>): Option<seq<SizeEntry>>
  {
    match Filter(items, KeepItem)
    case None => None
    case Some(kept) => Some(Entries(kept))
  }

  function Entries(kept: seq<Json>): (r: seq<SizeEntry>)
    ensures |r| == |kept| && forall i :: 0 <= i < |kept| ==> r[i] == ToEntry(kept[i])
  {
    seq(|kept|, i requires 0 <= i < |kept| => ToEntry(kept[i]))
  }

  /** What `parseSizes(str)` returns. */
  function ParseSizes(str: string, parse: string -> Option<Json>): Option<seq<SizeEntry>>
  {
    match parse(str)
    case None => None
    case Some(data) =>
      match FindItems(data)
      case Found(items) => Normalize(items)
      case _ => None
  }

  /** `parseSizes` gives a list exactly when the text parses, the search finds
      a table and the table holds no null; that list then starts with the entry
      of the table's first item, so it is never empty, and is no longer than
      the table. */
  lemma ParseSizesOutcome(str: string, parse: string -> Option<Json>)
    ensures ParseSizes(str, parse).Some? <==>
      parse(str).Some? && FindItems(parse(str).value).Found? && JNull !in FindItems(parse(str).value).items
    ensures ParseSizes(str, parse).Some? ==>
      var items := FindItems(parse(str).value).items;
      0 < |ParseSizes(str, parse).value| <= |items| && ParseSizes(str, parse).value[0] == ToEntry(items[0])
  {
    if parse(str).Some? && FindItems(parse(str).value).Found? {
      var items := FindItems(parse(str).value).items;
      NormalizeFails(items);
      if JNull !in items {
        assert KeepItem(items[0]) == Some(true);
        assert Filter(items, KeepItem).value[0] == items[0];
      }
    }
  }

  /** The normalisation fails exactly when the located list holds a null. */
  lemma NormalizeFails(items: seq<Json>)
    ensures Normalize(items).None? <==> JNull in items
  {
    FilterFails(items, KeepItem);
    if JNull in items {
      var i :| 0 <= i < |items| && items[i] == JNull;
      assert KeepItem(items[i]).None?;
    }
  }

  /** The normalised list has no more entries than the located list, keeps
      exactly the items with a truthy `name` and `stock`, and maps each to its
      name and stock state. */
  lemma NormalizeKeeps(items: seq<Json>)
    requires Normalize(items).Some?
    ensures |Normalize(items).value| <= |items|
    ensures forall e :: e in Normalize(items).value ==>
      Truthy(e.name) && exists item :: item in items && KeepItem(item) == Some(true) && e == ToEntry(item)
    ensures forall item :: item in items && KeepItem(item) == Some(true) ==> ToEntry(item) in Normalize(items).value
  {
    FilterMembers(items, KeepItem);
    var kept := Filter(items, KeepItem).value;
    var out := Normalize(items).value;
    forall e | e in out
      ensures Truthy(e.name) && exists item :: item in items && KeepItem(item) == Some(true) && e == ToEntry(item)
    {
      var k :| 0 <= k < |out| && out[k] == e;
      assert kept[k] in kept;
    }
    forall item | item in items && KeepItem(item) == Some(true) ensures ToEntry(item) in out {
      var k :| 0 <= k < |kept| && kept[k] == item;
      assert out[k] == ToEntry(item);
    }
  }

  /** Normalisation preserves order: it distributes over concatenation. */
  lemma NormalizeAppend(a: seq<Json>, b: seq<Json>)
    requires Normalize(a).Some? && Normalize(b).Some?
    ensures Normalize(a + b) == Some(Normalize(a).value + Normalize(b).value)
  {
    FilterAppend(a, b, KeepItem);
    var ka, kb := Filter(a, KeepItem).value, Filter(b, KeepItem).value;
    assert Entries(ka + kb) == Entries(ka) + Entries(kb);
  }

  /** A null first element of some object's `items` makes the whole extraction
      fail, although a valid table sits next to it. */
  lemma NullFirstItemHidesTable(str: string, parse: string -> Option<Json>)
    requires
      var row := JObj([Field("name", JStr("M")), Field("stock", JStr("in_stock"))]);
      parse(str) == Some(JArr([JObj([Field("items", JArr([JNull]))]), JObj([Field("items", JArr([row]))])]))
    ensures ParseSizes(str, parse) == None
    ensures HasCheck(parse(str).value, Found([JObj([Field("name", JStr("M")), Field("stock", JStr("in_stock"))])]))
  {
    var row := JObj([Field("name", JStr("M")), Field("stock", JStr("in_stock"))]);
    var first := JObj([Field("items", JArr([JNull]))]);
    var second := JObj([Field("items", JArr([row]))]);
    var j := parse(str).value;
    assert j == JArr([first, second]);
    assert ItemsTable(first.fields) == Threw;
    assert FindItems(first) == Threw;
    assert FindInElems([first, second]) == Threw;
    assert ItemsTable(second.fields) == Found([row]);
    assert HasCheck(second, Found([row]));
    assert j.elems[1] == second;
  }

  /** A null anywhere in the located list makes the extraction fail. */
  lemma NullItemFailsSizes(str: string, parse: string -> Option<Json>, items: seq<Json>)
    requires parse(str).Some? && FindItems(parse(str).value) == Found(items) && JNull in items
    ensures ParseSizes(str, parse) == None
  {
    NormalizeFails(items);
  }

  // ---- fetchProduct, after the fetch ----

  method FetchProduct(html: string, parse: string -> Option<Json>) returns (r: Product)
    ensures r.Failed? <==> Patterns.MatchNextData(html).None?
    ensures r.Failed? ==> r == Failed(NoNextDataError)
    ensures r.Extracted? ==>
      r.material == MaterialOf(Patterns.MatchNextData(html).value, parse)
      && r.sizes == ParseSizes(Patterns.MatchNextData(html).value, parse)
  {
    var scriptMatch := Patterns.MatchNextData(html);
    if scriptMatch.None? {
      return Failed(NoNextDataError);
    }
    var str := scriptMatch.value;
    var material := ParseMaterial(str, parse);
    var sizes := ParseSizes(str, parse);
    return Extracted(material, sizes);
  }

  /** A page whose data section embeds a composition but holds no size table:
      both fields come from the same section, the material is what the
      composition decodes to and the sizes are absent. Text before the section
      and before the key may be anything in which no match starts. */
  lemma PageWithoutSizeTable(page: string, attrs: string, pre: string, t: string, tail: string, after: string,
                             parse: string -> Option<Json>)
    requires '>' !in attrs
    requires var body := pre + (Patterns.CompositionKey + (Escape(t) + "\"" + tail));
      !Patterns.Contains(body, Patterns.ScriptClose)
      && (forall k: nat :: k < |page| ==>
           Patterns.NextDataAt(page + (Patterns.ScriptOpen + attrs + ">" + body + Patterns.ScriptClose + after), k).None?)
      && (forall k: nat :: k < |pre| ==> Patterns.CompositionAt(body, k).None?)
    requires var body := pre + (Patterns.CompositionKey + (Escape(t) + "\"" + tail));
      parse(body).Some? && !HasCheck(parse(body).value, Threw) && forall u :: !HasCheck(parse(body).value, Found(u))
    ensures var body := pre + (Patterns.CompositionKey + (Escape(t) + "\"" + tail));
      var html := page + (Patterns.ScriptOpen + attrs + ">" + body + Patterns.ScriptClose + after);
      Patterns.MatchNextData(html) == Some(body)
      && MaterialOf(body, parse) == (match parse(t) case None => None case Some(comp) => RenderComposition(comp))
      && ParseSizes(body, parse) == None
  {
    var body := pre + (Patterns.CompositionKey + (Escape(t) + "\"" + tail));
    Patterns.NextDataOfPage(page, attrs, body, after);
    MaterialOfEmbedded(pre, t, tail, parse);
    FindItemsNotFoundIff(parse(body).value);
  }
}
