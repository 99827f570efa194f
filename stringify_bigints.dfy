/**
 * `stringifyBigIntsInObj` (web-app/app/lib/utils/stringifyBigIntsInObj.ts, and the identical copy in
 * web-app/app/lib/utils.ts): rebuilds an object entry by entry, turning every bigint into its decimal
 * string and descending into every value whose `typeof` is "object", so that Redux can serialise it.
 */
module StringifyBigInts {
  import opened Wrappers
  import opened JsNumerics

  /**
   * The JavaScript values the function can meet. An object is its own enumerable string-keyed
   * properties in `Object.entries` order; an array is its elements, whose entries are keyed "0", "1", ....
   */
  datatype JsValue =
    | JBigInt(n: int)
    | JString(s: string)
    | JNumber(x: int)
    | JBool(b: bool)
    | JUndefined
    | JNull
    | JObject(entries: seq<Entry>)
    | JArray(items: seq<JsValue>)

  /** One own property: its key and its value. */
  datatype Entry = Entry(key: string, value: JsValue)

  /** `typeof v === 'object'`; true of `null` as well. */
  predicate IsTypeofObject(v: JsValue) {
    v.JObject? || v.JArray? || v.JNull?
  }

  /** The TypeError `Object.entries(null)` throws. */
  const NULL_TO_OBJECT_MESSAGE := "Cannot convert undefined or null to object"

  /** The value stored under one key: a bigint as its string, an object recursively, anything else as it is. */
  function SerializeVal(v: JsValue): (r: Result<JsValue>)
    ensures v.JNull? ==> r.Failure?
    ensures r.Success? ==> !r.value.JBigInt? && !r.value.JNull? && !r.value.JArray?
    decreases v, 1
  {
    match v
    case JBigInt(n) => Success(JString(IntToString(n)))
    case JNull => Failure(NULL_TO_OBJECT_MESSAGE)
    case JObject(es) =>
      var es' :- SerializeEntries(es);
      Success(JObject(es'))
    case JArray(items) =>
      var es' :- SerializeItems(items, 0);
      Success(JObject(es'))
    case _ => Success(v)
  }

  /** `Object.entries(obj).map(...)` on an object: the first failing entry decides the error. */
  function SerializeEntries(es: seq<Entry>): Result<seq<Entry>>
    decreases es, 0
  {
    if es == [] then Success([])
    else
      assert es[0] in es;
      var v :- SerializeVal(es[0].value);
      var rest :- SerializeEntries(es[1..]);
      Success([Entry(es[0].key, v)] + rest)
  }

  /** `Object.entries(arr).map(...)` on the elements of an array from index `from` on. */
  function SerializeItems(items: seq<JsValue>, from: nat): Result<seq<Entry>>
    decreases items, 0
  {
    if items == [] then Success([])
    else
      var v :- SerializeVal(items[0]);
      var rest :- SerializeItems(items[1..], from + 1);
      Success([Entry(NatToString(from), v)] + rest)
  }

  /** The top-level call; its argument is an object or an array by its declared type. */
  function StringifyBigIntsInObj(obj: JsValue): (r: Result<JsValue>)
    requires obj.JObject? || obj.JArray?
    ensures r.Success? ==> r.value.JObject?
    ensures r.Success? && obj.JObject? ==> Keys(r.value.entries) == Keys(obj.entries)
    ensures r.Success? && obj.JArray? ==> Keys(r.value.entries) == IndexKeys(0, |obj.items|)
    ensures r.Success? ==> Clean(r.value)
    ensures r.Success? <==> !HasNull(obj)
  {
    SerializeValKeepsShape(obj);
    SerializeValSucceedsIffNoNull(obj);
    SerializeValIsClean(obj);
    SerializeVal(obj)
  }

  // ---------------------------------------------------------------------------
  // Properties

  function Keys(es: seq<Entry>): seq<string> {
    seq(|es|, i requires 0 <= i < |es| => es[i].key)
  }

  /** The keys `Object.entries` gives the elements `from` to `from + n - 1` of an array. */
  function IndexKeys(from: nat, n: nat): seq<string> {
    seq(n, i requires 0 <= i < n => NatToString(from + i))
  }

  /** A `null` somewhere below the top level. */
  predicate HasNull(v: JsValue)
    decreases v, 1
  {
    match v
    case JObject(es) => EntriesHaveNull(es)
    case JArray(items) => ItemsHaveNull(items)
    case _ => false
  }

  predicate EntriesHaveNull(es: seq<Entry>)
    decreases es, 0
  {
    es != [] && (assert es[0] in es; es[0].value.JNull? || HasNull(es[0].value) || EntriesHaveNull(es[1..]))
  }

  predicate ItemsHaveNull(items: seq<JsValue>)
    decreases items, 0
  {
    items != [] && (items[0].JNull? || HasNull(items[0]) || ItemsHaveNull(items[1..]))
  }

  /** No bigint, no `null` and no array at any depth: what the function leaves behind. */
  predicate Clean(v: JsValue)
    decreases v, 1
  {
    match v
    case JBigInt(_) => false
    case JNull => false
    case JArray(_) => false
    case JObject(es) => EntriesClean(es)
    case _ => true
  }

  predicate EntriesClean(es: seq<Entry>)
    decreases es, 0
  {
    es == [] || (assert es[0] in es; Clean(es[0].value) && EntriesClean(es[1..]))
  }

  /** Objects keep their keys in order and arrays become objects keyed by index. */
  lemma {:induction false} SerializeValKeepsShape(v: JsValue)
    ensures SerializeVal(v).Success? && v.JObject? ==>
      SerializeVal(v).value.JObject? && Keys(SerializeVal(v).value.entries) == Keys(v.entries)
    ensures SerializeVal(v).Success? && v.JArray? ==>
      SerializeVal(v).value.JObject? && Keys(SerializeVal(v).value.entries) == IndexKeys(0, |v.items|)
    decreases v, 2
  {
    match v
    case JObject(es) => SerializeEntriesKeepsKeys(es);
    case JArray(items) => SerializeItemsKeys(items, 0);
    case _ =>
  }

  lemma KeysCons(e: Entry, es: seq<Entry>)
    ensures Keys([e] + es) == [e.key] + Keys(es)
  {
  }

  lemma IndexKeysCons(from: nat, n: nat)
    requires n > 0
    ensures IndexKeys(from, n) == [NatToString(from)] + IndexKeys(from + 1, n - 1)
  {
  }

  lemma {:induction false} SerializeEntriesKeepsKeys(es: seq<Entry>)
    ensures SerializeEntries(es).Success? ==> Keys(SerializeEntries(es).value) == Keys(es)
    decreases es
  {
    if es != [] && SerializeEntries(es).Success? {
      SerializeEntriesKeepsKeys(es[1..]);
      var r := SerializeEntries(es).value;
      assert r == [Entry(es[0].key, SerializeVal(es[0].value).value)] + SerializeEntries(es[1..]).value;
      KeysCons(Entry(es[0].key, SerializeVal(es[0].value).value), SerializeEntries(es[1..]).value);
      KeysCons(es[0], es[1..]);
      assert es == [es[0]] + es[1..];
    }
  }

  lemma {:induction false} SerializeItemsKeys(items: seq<JsValue>, from: nat)
    ensures SerializeItems(items, from).Success? ==> Keys(SerializeItems(items, from).value) == IndexKeys(from, |items|)
    decreases items
  {
    if items != [] && SerializeItems(items, from).Success? {
      SerializeItemsKeys(items[1..], from + 1);
      var r := SerializeItems(items, from).value;
      assert r == [Entry(NatToString(from), SerializeVal(items[0]).value)] + SerializeItems(items[1..], from + 1).value;
      KeysCons(Entry(NatToString(from), SerializeVal(items[0]).value), SerializeItems(items[1..], from + 1).value);
      IndexKeysCons(from, |items|);
    }
  }

  /** The only error is the one a nested `null` raises, and every nested `null` raises it. */
  lemma {:induction false} SerializeValSucceedsIffNoNull(v: JsValue)
    ensures SerializeVal(v).Success? <==> !v.JNull? && !HasNull(v)
    ensures SerializeVal(v).Failure? ==> SerializeVal(v).error == NULL_TO_OBJECT_MESSAGE
    decreases v, 2
  {
    match v
    case JObject(es) => SerializeEntriesSucceedsIffNoNull(es);
    case JArray(items) => SerializeItemsSucceedIffNoNull(items, 0);
    case _ =>
  }

  lemma {:induction false} SerializeEntriesSucceedsIffNoNull(es: seq<Entry>)
    ensures SerializeEntries(es).Success? <==> !EntriesHaveNull(es)
    ensures SerializeEntries(es).Failure? ==> SerializeEntries(es).error == NULL_TO_OBJECT_MESSAGE
    decreases es, 1
  {
    if es != [] {
      assert es[0] in es;
      SerializeValSucceedsIffNoNull(es[0].value);
      SerializeEntriesSucceedsIffNoNull(es[1..]);
    }
  }

  lemma {:induction false} SerializeItemsSucceedIffNoNull(items: seq<JsValue>, from: nat)
    ensures SerializeItems(items, from).Success? <==> !ItemsHaveNull(items)
    ensures SerializeItems(items, from).Failure? ==> SerializeItems(items, from).error == NULL_TO_OBJECT_MESSAGE
    decreases items, 1
  {
    if items != [] {
      SerializeValSucceedsIffNoNull(items[0]);
      SerializeItemsSucceedIffNoNull(items[1..], from + 1);
    }
  }

  /** No bigint, `null` or array survives, at any depth. */
  lemma {:induction false} SerializeValIsClean(v: JsValue)
    ensures SerializeVal(v).Success? ==> Clean(SerializeVal(v).value)
    decreases v, 2
  {
    match v
    case JObject(es) => SerializeEntriesAreClean(es);
    case JArray(items) => SerializeItemsAreClean(items, 0);
    case _ =>
  }

  lemma {:induction false} SerializeEntriesAreClean(es: seq<Entry>)
    ensures SerializeEntries(es).Success? ==> EntriesClean(SerializeEntries(es).value)
    decreases es, 1
  {
    if es != [] && SerializeEntries(es).Success? {
      assert es[0] in es;
      SerializeValIsClean(es[0].value);
      SerializeEntriesAreClean(es[1..]);
      var r := SerializeEntries(es).value;
      assert r[1..] == SerializeEntries(es[1..]).value;
    }
  }

  lemma {:induction false} SerializeItemsAreClean(items: seq<JsValue>, from: nat)
    ensures SerializeItems(items, from).Success? ==> EntriesClean(SerializeItems(items, from).value)
    decreases items, 1
  {
    if items != [] && SerializeItems(items, from).Success? {
      SerializeValIsClean(items[0]);
      SerializeItemsAreClean(items[1..], from + 1);
      var r := SerializeItems(items, from).value;
      assert r[1..] == SerializeItems(items[1..], from + 1).value;
    }
  }

  /** A clean value is left exactly as it is. */
  lemma {:induction false} CleanIsFixedPoint(v: JsValue)
    requires Clean(v)
    ensures SerializeVal(v) == Success(v)
    decreases v, 1
  {
    match v
    case JObject(es) => CleanEntriesAreFixed(es);
    case _ =>
  }

  lemma {:induction false} CleanEntriesAreFixed(es: seq<Entry>)
    requires EntriesClean(es)
    ensures SerializeEntries(es) == Success(es)
    decreases es, 0
  {
    if es != [] {
      assert es[0] in es;
      CleanIsFixedPoint(es[0].value);
      CleanEntriesAreFixed(es[1..]);
      assert [Entry(es[0].key, es[0].value)] + es[1..] == es;
    }
  }

  /** Applying the function to its own result changes nothing. */
  lemma Idempotent(obj: JsValue)
    requires obj.JObject? || obj.JArray?
    requires StringifyBigIntsInObj(obj).Success?
    ensures StringifyBigIntsInObj(StringifyBigIntsInObj(obj).value) == StringifyBigIntsInObj(obj)
  {
    CleanIsFixedPoint(StringifyBigIntsInObj(obj).value);
  }

  /** A bigint entry becomes the string that `BigInt` reads back as the same value. */
  lemma BigIntEntryReadsBack(k: string, n: int)
    ensures StringifyBigIntsInObj(JObject([Entry(k, JBigInt(n))])) == Success(JObject([Entry(k, JString(IntToString(n)))]))
    ensures ParseBigInt(IntToString(n)) == Success(n)
  {
    ParseIntToString(n);
    var es := [Entry(k, JBigInt(n))];
    assert es[1..] == [];
    assert SerializeEntries(es[1..]) == Success([]);
    assert SerializeVal(JBigInt(n)) == Success(JString(IntToString(n)));
    assert [Entry(k, JString(IntToString(n)))] + [] == [Entry(k, JString(IntToString(n)))];
    assert SerializeEntries(es) == Success([Entry(k, JString(IntToString(n)))]);
    assert SerializeVal(JObject(es)) == Success(JObject([Entry(k, JString(IntToString(n)))]));
  }

  /** Scenario: a nested array becomes an object keyed by index. */
  lemma ScenarioNestedArray()
    ensures StringifyBigIntsInObj(JObject([Entry("a", JArray([JBigInt(7), JBool(true)]))]))
      == Success(JObject([Entry("a", JObject([Entry("0", JString("7")), Entry("1", JBool(true))]))]))
  {
    var items := [JBigInt(7), JBool(true)];
    assert items[1..] == [JBool(true)] && items[1..][1..] == [];
    assert NatToString(0) == "0" && NatToString(1) == "1" && IntToString(7) == "7";
    assert SerializeItems(items[1..][1..], 2) == Success([]);
    assert SerializeVal(JBool(true)) == Success(JBool(true));
    assert [Entry("1", JBool(true))] + [] == [Entry("1", JBool(true))];
    assert SerializeItems(items[1..], 1) == Success([Entry("1", JBool(true))]);
    assert SerializeVal(JBigInt(7)) == Success(JString("7"));
    assert [Entry("0", JString("7"))] + [Entry("1", JBool(true))] == [Entry("0", JString("7")), Entry("1", JBool(true))];
    assert SerializeItems(items, 0) == Success([Entry("0", JString("7")), Entry("1", JBool(true))]);
    var es := [Entry("a", JArray(items))];
    assert es[1..] == [];
    assert SerializeEntries(es[1..]) == Success([]);
    var inner := JObject([Entry("0", JString("7")), Entry("1", JBool(true))]);
    assert SerializeVal(JArray(items)) == Success(inner);
    assert [Entry("a", inner)] + [] == [Entry("a", inner)];
    assert SerializeEntries(es) == Success([Entry("a", inner)]);
    assert SerializeVal(JObject(es)) == Success(JObject([Entry("a", inner)]));
  }

  /** Scenario: a null nested below the top level makes the call throw. */
  lemma ScenarioNestedNull()
    ensures StringifyBigIntsInObj(JObject([Entry("a", JNumber(1)), Entry("b", JNull)])) == Failure(NULL_TO_OBJECT_MESSAGE)
  {
    var es2 := [Entry("a", JNumber(1)), Entry("b", JNull)];
    assert es2[1..] == [Entry("b", JNull)];
    assert SerializeEntries(es2[1..]) == Failure(NULL_TO_OBJECT_MESSAGE);
  }
}
