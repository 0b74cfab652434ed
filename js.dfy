/** The values `JSON.parse` produces, and the few JavaScript operations the
    extraction code applies to them: truthiness, property reads, template-literal
    stringification, `Array.prototype.join/filter/map` with callbacks that may
    throw, and `String.prototype.replace` with a global literal pattern.
    A JavaScript exception is modelled as `None`. */
module Js {

  datatype Option<+T> = None | Some(value: T)

  /** A decoded JSON value. Numbers are integers; an object is its own
      properties in `Object.keys` order (integer-like keys already first). */
  datatype Json =
    | JNull
    | JBool(b: bool)
    | JNum(n: int)
    | JStr(s: string)
    | JArr(elems: seq<Json>)
    | JObj(fields: seq<Field>)

  datatype Field = Field(key: string, value: Json)

  /** The value of the first field named `key`, if any. */
  function Lookup(fields: seq<Field>, key: string): (r: Option<Json>)
    ensures r.Some? <==> exists i :: 0 <= i < |fields| && fields[i].key == key
    ensures r.Some? ==> exists i :: 0 <= i < |fields| && fields[i] == Field(key, r.value)
  {
    if fields == [] then None
    else if fields[0].key == key then Some(fields[0].value)
    else Lookup(fields[1..], key)
  }

  /** The property read `v.key` on a value that is not null (reading a property
      of null throws; callers test for null first). `None` is `undefined`. The
      keys the extraction code reads (`items`, `name`, `stock`, `type`,
      `materials`, `percentage`, `material`) are not built-in properties of
      strings, numbers, booleans or arrays, so on those they are `undefined`. */
  function Member(v: Json, key: string): (r: Option<Json>)
    ensures r.Some? <==> v.JObj? && exists i :: 0 <= i < |v.fields| && v.fields[i].key == key
  {
    if v.JObj? then Lookup(v.fields, key) else None
  }

  /** JavaScript truthiness; `None` is `undefined`. */
  predicate Truthy(v: Option<Json>)
  {
    match v
    case None => false
    case Some(JNull) => false
    case Some(JBool(b)) => b
    case Some(JNum(n)) => n != 0
    case Some(JStr(s)) => s != ""
    case Some(JArr(_)) => true
    case Some(JObj(_)) => true
  }

  lemma TruthyExactlyWhen(v: Option<Json>)
    ensures !Truthy(v) <==> v in {None, Some(JNull), Some(JBool(false)), Some(JNum(0)), Some(JStr(""))}
  {
  }

  /** The elements `for (const x of v)` visits: those of an array, the
      one-character strings of a string; anything else is not iterable and the
      loop throws. */
  function Iterate(v: Json): (r: Option<seq<Json>>)
    ensures r.Some? <==> v.JArr? || v.JStr?
    ensures v.JArr? ==> r == Some(v.elems)
    ensures v.JStr? ==> |r.value| == |v.s| && forall i :: 0 <= i < |v.s| ==> r.value[i] == JStr([v.s[i]])
  {
    match v
    case JArr(es) => Some(es)
    case JStr(s) => Some(seq(|s|, i requires 0 <= i < |s| => JStr([s[i]])))
    case _ => None
  }

  function Digit(d: nat): (c: char)
    requires d < 10
    ensures '0' <= c <= '9' && c as int - '0' as int == d
  {
    "0123456789"[d]
  }

  /** Decimal rendering of a natural number, as `Number.prototype.toString`. */
  function NatToString(n: nat): (s: string)
    ensures |s| > 0 && forall i :: 0 <= i < |s| ==> '0' <= s[i] <= '9'
    ensures s[0] == '0' ==> n == 0
  {
    if n < 10 then [Digit(n)] else NatToString(n / 10) + [Digit(n % 10)]
  }

  /** The value of a string of decimal digits. */
  function DecimalValue(s: string): nat
    requires forall i :: 0 <= i < |s| ==> '0' <= s[i] <= '9'
  {
    if s == [] then 0 else 10 * DecimalValue(s[..|s| - 1]) + (s[|s| - 1] as int - '0' as int)
  }

  lemma {:induction false} NatToStringRoundTrip(n: nat)
    ensures DecimalValue(NatToString(n)) == n
  {
    if n >= 10 {
      NatToStringRoundTrip(n / 10);
      var s := NatToString(n);
      assert s[..|s| - 1] == NatToString(n / 10);
    }
  }

  function IntToString(n: int): (s: string)
    ensures n < 0 <==> (|s| > 0 && s[0] == '-')
  {
    if n < 0 then "-" + NatToString(-n) else NatToString(n)
  }

  /** `Array.prototype.join(sep)` on strings. */
  function Join(parts: seq<string>, sep: string): (r: string)
    ensures |parts| == 1 ==> r == parts[0]
  {
    if |parts| == 0 then "" else if |parts| == 1 then parts[0] else parts[0] + sep + Join(parts[1..], sep)
  }

  /** The total length of the parts. */
  function TotalLength(parts: seq<string>): nat
  {
    if parts == [] then 0 else |parts[0]| + TotalLength(parts[1..])
  }

  /** A join holds every part and one separator between each two. */
  lemma {:induction false} JoinLength(parts: seq<string>, sep: string)
    requires parts != []
    ensures |Join(parts, sep)| == TotalLength(parts) + (|parts| - 1) * |sep|
  {
    if |parts| > 1 {
      JoinLength(parts[1..], sep);
    }
  }

  lemma {:induction false} JoinAppend(parts: seq<string>, last: string, sep: string)
    requires parts != []
    ensures Join(parts + [last], sep) == Join(parts, sep) + sep + last
  {
    if |parts| > 1 {
      assert (parts + [last])[1..] == parts[1..] + [last];
      JoinAppend(parts[1..], last, sep);
    }
  }

  /** Joining with the empty separator concatenates, so it distributes over `+`. */
  lemma {:induction false} JoinEmptySeparatorConcat(a: seq<string>, b: seq<string>)
    ensures Join(a + b, "") == Join(a, "") + Join(b, "")
  {
    if a == [] {
      assert a + b == b;
    } else if |a| == 1 {
      if b != [] {
        assert (a + b)[1..] == b;
      }
    } else {
      assert (a + b)[1..] == a[1..] + b;
      JoinEmptySeparatorConcat(a[1..], b);
    }
  }

  /** The string a template literal `${v}` produces for a JSON value, or
      `None` where the conversion throws. Arrays join their elements with ","
      (null elements render empty). An object renders as "[object Object]"
      unless it has its own `toString` property: a JSON value is never
      callable, so neither that property nor the inherited `valueOf` (which
      returns the object itself) gives a primitive, and the conversion throws
      a TypeError. */
  function JsonToStr(j: Json): Option<string>
  {
    match j
    case JNull => Some("null")
    case JBool(b) => Some(if b then "true" else "false")
    case JNum(n) => Some(IntToString(n))
    case JStr(s) => Some(s)
    case JArr(es) =>
      (match ElemsToStr(es)
       case None => None
       case Some(texts) => Some(Join(texts, ",")))
    case JObj(fs) => if Lookup(fs, "toString").Some? then None else Some("[object Object]")
  }

  /** The element texts `join` concatenates; it throws with the first element
      that throws. */
  function ElemsToStr(es: seq<Json>): Option<seq<string>>
  {
    if es == [] then Some([])
    else
      match (if es[0].JNull? then Some("") else JsonToStr(es[0]))
      case None => None
      case Some(t) =>
        match ElemsToStr(es[1..])
        case None => None
        case Some(rest) => Some([t] + rest)
  }

  /** `${v}` where `None` is `undefined`. */
  function ToStr(v: Option<Json>): Option<string>
  {
    match v
    case None => Some("undefined")
    case Some(j) => JsonToStr(j)
  }

  /** An object with its own `toString` property, at the top or inside arrays
      at any depth. */
  ghost predicate HoldsToStringKey(j: Json)
  {
    match j
    case JObj(fs) => Lookup(fs, "toString").Some?
    case JArr(es) => exists i :: 0 <= i < |es| && HoldsToStringKey(es[i])
    case _ => false
  }

  /** `${v}` throws exactly on an object with its own `toString` property, or
      on an array that holds one at any depth; the fields of other objects are
      never looked at. */
  lemma ToStrThrows(v: Option<Json>)
    ensures ToStr(v).None? <==> v.Some? && HoldsToStringKey(v.value)
  {
    if v.Some? {
      JsonToStrThrows(v.value);
    }
  }

  lemma {:induction false} JsonToStrThrows(j: Json)
    ensures JsonToStr(j).None? <==> HoldsToStringKey(j)
  {
    match j
    case JArr(es) => ElemsToStrThrows(es);
    case _ =>
  }

  lemma {:induction false} ElemsToStrThrows(es: seq<Json>)
    ensures ElemsToStr(es).None? <==> exists i :: 0 <= i < |es| && HoldsToStringKey(es[i])
  {
    if es != [] {
      JsonToStrThrows(es[0]);
      ElemsToStrThrows(es[1..]);
      if ElemsToStr(es[1..]).None? {
        var i :| 0 <= i < |es[1..]| && HoldsToStringKey(es[1..][i]);
        assert HoldsToStringKey(es[i + 1]);
      }
      if exists i :: 0 <= i < |es| && HoldsToStringKey(es[i]) {
        var i :| 0 <= i < |es| && HoldsToStringKey(es[i]);
        if i > 0 {
          assert es[1..][i - 1] == es[i];
        }
      }
    }
  }

  predicate IsDecimal(s: string)
  {
    forall i :: 0 <= i < |s| ==> '0' <= s[i] <= '9'
  }

  /** What `${v}` renders can be read back: a string as itself, a number as
      its decimal digits without leading zeros, after a minus sign when it is
      negative, `undefined` as the word. */
  lemma ToStrReadsBack(v: Option<Json>)
    ensures v.Some? && v.value.JStr? ==> ToStr(v) == Some(v.value.s)
    ensures v.Some? && v.value.JNum? && v.value.n >= 0 ==>
      ToStr(v).Some? && IsDecimal(ToStr(v).value) && DecimalValue(ToStr(v).value) == v.value.n
      && (ToStr(v).value[0] == '0' ==> v.value.n == 0)
    ensures v.Some? && v.value.JNum? && v.value.n < 0 ==>
      ToStr(v).Some? && |ToStr(v).value| > 1 && ToStr(v).value[0] == '-'
      && IsDecimal(ToStr(v).value[1..]) && DecimalValue(ToStr(v).value[1..]) == -v.value.n
      && ToStr(v).value[1] != '0'
    ensures v.None? ==> ToStr(v) == Some("undefined")
  {
    if v.Some? && v.value.JNum? {
      var n := v.value.n;
      if n >= 0 {
        NatToStringRoundTrip(n);
      } else {
        NatToStringRoundTrip(-n);
        assert ToStr(v).value[1..] == NatToString(-n);
      }
    }
  }

  /** `s.replace(/pat/g, rep)` for a literal pattern: every occurrence, found
      left to right without overlapping, is replaced. */
  function ReplaceAll(s: string, pat: string, rep: string): (r: string)
    requires |pat| > 0
    decreases |s|
  {
    if |s| < |pat| then s
    else if s[..|pat|] == pat then rep + ReplaceAll(s[|pat|..], pat, rep)
    else [s[0]] + ReplaceAll(s[1..], pat, rep)
  }

  /** `s.filter(keep)`, where the callback returns `None` when it throws; the
      first throw aborts the whole call. */
  function Filter<T>(s: seq<T>, keep: T -> Option<bool>): (r: Option<seq<T>>)
    ensures r.Some? ==> |r.value| <= |s|
  {
    if s == [] then Some([])
    else match keep(s[0])
      case None => None
      case Some(k) =>
        match Filter(s[1..], keep)
        case None => None
        case Some(rest) => Some(if k then [s[0]] + rest else rest)
  }

  lemma {:induction false} FilterFails<T>(s: seq<T>, keep: T -> Option<bool>)
    ensures Filter(s, keep).None? <==> exists i :: 0 <= i < |s| && keep(s[i]).None?
  {
    if s != [] {
      FilterFails(s[1..], keep);
      if keep(s[0]).Some? && Filter(s[1..], keep).None? {
        var i :| 0 <= i < |s[1..]| && keep(s[1..][i]).None?;
        assert keep(s[i + 1]).None?;
      }
      if Filter(s, keep).Some? {
        forall i | 0 <= i < |s| ensures keep(s[i]).Some? {
          if i > 0 { assert s[i] == s[1..][i - 1]; }
        }
      }
    }
  }

  /** A filter keeps exactly the elements its callback accepts. */
  lemma {:induction false} FilterMembers<T>(s: seq<T>, keep: T -> Option<bool>)
    requires Filter(s, keep).Some?
    ensures forall x :: x in Filter(s, keep).value ==> x in s && keep(x) == Some(true)
    ensures forall x :: x in s && keep(x) == Some(true) ==> x in Filter(s, keep).value
  {
    if s != [] {
      FilterMembers(s[1..], keep);
      forall x | x in s && keep(x) == Some(true) ensures x in Filter(s, keep).value {
        if x != s[0] {
          var i :| 0 <= i < |s| && s[i] == x;
          assert x == s[1..][i - 1];
        }
      }
    }
  }

  /** Filtering preserves order: it distributes over concatenation. */
  lemma {:induction false} FilterAppend<T>(a: seq<T>, b: seq<T>, keep: T -> Option<bool>)
    requires Filter(a, keep).Some? && Filter(b, keep).Some?
    ensures Filter(a + b, keep) == Some(Filter(a, keep).value + Filter(b, keep).value)
  {
    if a == [] {
      assert a + b == b;
      assert Filter(a, keep).value == [];
      assert Filter(a, keep).value + Filter(b, keep).value == Filter(b, keep).value;
    } else {
      assert (a + b)[0] == a[0];
      assert (a + b)[1..] == a[1..] + b;
      FilterAppend(a[1..], b, keep);
      var rest := Filter(a[1..], keep).value + Filter(b, keep).value;
      assert Filter((a + b)[1..], keep) == Some(rest);
      if keep(a[0]) == Some(true) {
        assert Filter(a, keep).value == [a[0]] + Filter(a[1..], keep).value;
        assert Filter(a + b, keep).value == [a[0]] + rest;
        assert [a[0]] + rest == Filter(a, keep).value + Filter(b, keep).value;
      } else {
        assert Filter(a, keep).value == Filter(a[1..], keep).value;
      }
    }
  }

  /** `s.map(f)`, where the callback returns `None` when it throws. */
  function MapAll<T, U>(s: seq<T>, f: T -> Option<U>): (r: Option<seq<U>>)
    ensures r.Some? ==> |r.value| == |s|
  {
    if s == [] then Some([])
    else match f(s[0])
      case None => None
      case Some(y) =>
        match MapAll(s[1..], f)
        case None => None
        case Some(rest) => Some([y] + rest)
  }

  /** A map succeeds exactly when every callback does, and then holds their
      results in order. */
  lemma {:induction false} MapAllAt<T, U>(s: seq<T>, f: T -> Option<U>)
    ensures MapAll(s, f).Some? <==> forall i :: 0 <= i < |s| ==> f(s[i]).Some?
    ensures MapAll(s, f).Some? ==> forall i :: 0 <= i < |s| ==> MapAll(s, f).value[i] == f(s[i]).value
  {
    if s != [] {
      MapAllAt(s[1..], f);
      assert forall i :: 0 < i < |s| ==> s[i] == s[1..][i - 1];
    }
  }

  /** One callback that throws makes the whole map throw. */
  lemma MapAllFail<T, U>(s: seq<T>, f: T -> Option<U>, i: nat)
    requires i < |s| && f(s[i]).None?
    ensures MapAll(s, f).None?
  {
    MapAllAt(s, f);
  }

  /** Mapping one more element appends its image. */
  lemma {:induction false} MapAllSnoc<T, U>(s: seq<T>, x: T, f: T -> Option<U>, ys: seq<U>, y: U)
    requires MapAll(s, f) == Some(ys) && f(x) == Some(y)
    ensures MapAll(s + [x], f) == Some(ys + [y])
  {
    if s == [] {
      assert s + [x] == [x] && [x][1..] == [];
      assert ys == [] && MapAll([x][1..], f) == Some([]);
      assert [y] + [] == [y] && ys + [y] == [y];
    } else {
      assert (s + [x])[1..] == s[1..] + [x];
      MapAllSnoc(s[1..], x, f, ys[1..], y);
      assert ys + [y] == [ys[0]] + (ys[1..] + [y]);
    }
  }

  /** A `for...of` loop that pushes `f(x)` for each element into an initially
      empty array, in order, and is abandoned by the first callback that
      throws. */
  method PushAll<T, U>(s: seq<T>, f: T -> Option<U>) returns (r: Option<seq<U>>)
    ensures r == MapAll(s, f)
  {
    var out: seq<U> := [];
    var i := 0;
    while i < |s|
      invariant 0 <= i <= |s|
      invariant MapAll(s[..i], f) == Some(out)
    {
      var y := f(s[i]);
      if y.None? {
        MapAllFail(s, f, i);
        return None;
      }
      MapAllSnoc(s[..i], s[i], f, out, y.value);
      assert s[..i + 1] == s[..i] + [s[i]];
      out := out + [y.value];
      i := i + 1;
    }
    assert s[..i] == s;
    return Some(out);
  }
}
