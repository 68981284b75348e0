/** Decoded JSON values and the three `encoding/json` decodings the rule parser relies on.
    The parser never works on bytes: the value it is handed is the decoded document, and
    a raw message (`json.RawMessage`) is the decoded value it stands for. */
module Json {
  import opened Wrappers

  /** A JSON value. Numbers are kept as integers: the parser never looks inside them. */
  datatype Json =
    | JNull
    | JBool(b: bool)
    | JNumber(n: int)
    | JString(s: string)
    | JArray(items: seq<Json>)
    | JObject(members: seq<Member>)

  /** One `"key": value` pair of an object, in document order; a key may occur twice. */
  datatype Member = Member(key: string, value: Json)

  /** One entry of a decoded `map[string][]json.RawMessage`: a key and its raw list elements. */
  datatype ListMember = ListMember(key: string, items: seq<Json>)

  // ---------------------------------------------------------------------------
  // Size measures, used only to show that the parser's recursion terminates.

  function Size(j: Json): (r: nat)
    ensures r >= 1
    decreases j, 1
  {
    match j
    case JArray(items) => 1 + SizeItems(items)
    case JObject(ms) => 1 + SizeMembers(ms)
    case _ => 1
  }

  function SizeItems(s: seq<Json>): nat
    decreases s, 0
  {
    if s == [] then 0 else Size(s[0]) + SizeItems(s[1..])
  }

  function SizeMembers(ms: seq<Member>): nat
    decreases ms, 0
  {
    if ms == [] then 0 else Size(ms[0].value) + SizeMembers(ms[1..])
  }

  function SizeLists(ls: seq<ListMember>): nat
  {
    if ls == [] then 0 else 1 + SizeItems(ls[0].items) + SizeLists(ls[1..])
  }

  // ---------------------------------------------------------------------------
  // Go maps: duplicate keys collapse, the last occurrence wins.

  predicate HasKey(ms: seq<Member>, k: string)
  {
    exists i :: 0 <= i < |ms| && ms[i].key == k
  }

  /** The members of a decoded Go map, in a fixed iteration order: one member per key,
      carrying the value of that key's last occurrence, ordered by those last occurrences.
      (Go iterates a map in a randomised order; the model fixes this one.) */
  function Collapse(ms: seq<Member>): (r: seq<Member>)
    ensures |r| <= |ms|
    ensures ms != [] ==> r != []
    ensures forall m :: m in r ==> m in ms
  {
    if ms == [] then []
    else if HasKey(ms[1..], ms[0].key) then Collapse(ms[1..])
    else [ms[0]] + Collapse(ms[1..])
  }

  lemma {:induction false} CollapseKeys(ms: seq<Member>, k: string)
    ensures HasKey(Collapse(ms), k) <==> HasKey(ms, k)
  {
    if ms != [] {
      CollapseKeys(ms[1..], k);
      if HasKey(ms[1..], k) {
        var i :| 0 <= i < |ms[1..]| && ms[1..][i].key == k;
        assert ms[i + 1].key == k;
      }
      if !HasKey(ms[1..], ms[0].key) {
        var r := Collapse(ms);
        if HasKey(Collapse(ms[1..]), k) {
          var j :| 0 <= j < |Collapse(ms[1..])| && Collapse(ms[1..])[j].key == k;
          assert r[j + 1].key == k;
        }
        if ms[0].key == k { assert r[0].key == k; }
      }
    }
  }

  /** The members of a decoded map have distinct keys. */
  lemma {:induction false} CollapseDistinct(ms: seq<Member>)
    ensures forall i, j :: 0 <= i < j < |Collapse(ms)| ==> Collapse(ms)[i].key != Collapse(ms)[j].key
  {
    if ms != [] {
      CollapseDistinct(ms[1..]);
      if !HasKey(ms[1..], ms[0].key) {
        var rest := Collapse(ms[1..]);
        CollapseKeys(ms[1..], ms[0].key);
        forall j | 0 < j < |Collapse(ms)| ensures Collapse(ms)[0].key != Collapse(ms)[j].key {
          assert Collapse(ms)[j] == rest[j - 1];
        }
      }
    }
  }

  /** A member that is the last occurrence of its key is kept: the last duplicate wins. */
  lemma {:induction false} CollapseLastWins(ms: seq<Member>, i: nat)
    requires i < |ms|
    requires !HasKey(ms[i + 1..], ms[i].key)
    ensures ms[i] in Collapse(ms)
  {
    if i == 0 {
      assert ms[1..] == ms[i + 1..];
    } else {
      assert ms[1..][i - 1 + 1..] == ms[i + 1..];
      CollapseLastWins(ms[1..], i - 1);
    }
  }

  lemma {:induction false} CollapseSize(ms: seq<Member>)
    ensures SizeMembers(Collapse(ms)) <= SizeMembers(ms)
  {
    if ms != [] {
      CollapseSize(ms[1..]);
      if !HasKey(ms[1..], ms[0].key) {
        assert ([ms[0]] + Collapse(ms[1..]))[1..] == Collapse(ms[1..]);
      }
    }
  }

  // ---------------------------------------------------------------------------
  // The three decodings tried by the parser.

  /** `json.Unmarshal` into a Go `string`: a string decodes to itself, and `null` leaves the
      target at its zero value `""`; any other value is a decode (type) error. */
  function DecodeString(j: Json): (r: Option<string>)
  {
    match j
    case JString(s) => Some(s)
    case JNull => Some("")
    case _ => None
  }

  /** A value that decodes into a Go slice: a list, or `null` (a nil slice). */
  predicate IsListValue(j: Json)
  {
    j.JArray? || j.JNull?
  }

  function Items(j: Json): seq<Json>
  {
    if j.JArray? then j.items else []
  }

  function ToListMembers(ms: seq<Member>): (r: seq<ListMember>)
    ensures |r| == |ms|
    ensures forall i :: 0 <= i < |ms| ==> r[i] == ListMember(ms[i].key, Items(ms[i].value))
  {
    if ms == [] then [] else [ListMember(ms[0].key, Items(ms[0].value))] + ToListMembers(ms[1..])
  }

  /** `json.Unmarshal` into `map[string][]json.RawMessage`: `null` decodes to the empty (nil) map;
      an object decodes when every one of its values is a list or `null` (the value of a
      duplicate key that is later overwritten is checked too); anything else is a decode error. */
  function DecodeListMap(j: Json): (r: Option<seq<ListMember>>)
  {
    match j
    case JNull => Some([])
    case JObject(ms) =>
      if forall i :: 0 <= i < |ms| ==> IsListValue(ms[i].value) then Some(ToListMembers(Collapse(ms)))
      else None
    case _ => None
  }

  /** `json.Unmarshal` into `map[string]json.RawMessage`: `null` decodes to the empty map and
      every object decodes, its values kept raw; anything else is a decode error. */
  function DecodeRawMap(j: Json): (r: Option<seq<Member>>)
  {
    match j
    case JNull => Some([])
    case JObject(ms) => Some(Collapse(ms))
    case _ => None
  }

  /** What each decoding accepts: a string decodes to a Go string, and so does `null` (as `""`);
      a map of lists decodes from `null` (the nil map) or an object, with an entry per distinct
      key; a map of raw values decodes from `null` or from any object. */
  lemma DecodeShapes(j: Json)
    ensures DecodeString(j).Some? <==> j.JString? || j.JNull?
    ensures j.JNull? ==> DecodeString(j) == Some("")
    ensures DecodeListMap(j).Some? ==> j.JNull? || j.JObject?
    ensures j.JNull? ==> DecodeListMap(j) == Some([])
    ensures DecodeListMap(j).Some? && j.JObject? ==> |DecodeListMap(j).value| <= |j.members|
    ensures DecodeRawMap(j).Some? <==> j.JNull? || j.JObject?
    ensures j.JNull? ==> DecodeRawMap(j) == Some([])
    ensures DecodeRawMap(j).Some? && j.JObject? ==> |DecodeRawMap(j).value| <= |j.members|
  {
  }

  /** One member whose value is not a list rejects the whole object as a map of lists, even
      when a later member with the same key would overwrite it. */
  lemma DecodeListMapRejects(ms: seq<Member>, i: nat)
    requires i < |ms| && !IsListValue(ms[i].value)
    ensures DecodeListMap(JObject(ms)).None?
  {
  }

  /** An object with a single member decodes to that member in both map shapes, when the
      member's value fits the shape. */
  lemma SingleMemberDecodes(k: string, v: Json)
    ensures DecodeString(JObject([Member(k, v)])).None?
    ensures DecodeRawMap(JObject([Member(k, v)])) == Some([Member(k, v)])
    ensures IsListValue(v) ==> DecodeListMap(JObject([Member(k, v)])) == Some([ListMember(k, Items(v))])
    ensures !IsListValue(v) ==> DecodeListMap(JObject([Member(k, v)])).None?
  {
    var ms := [Member(k, v)];
    assert !HasKey(ms[1..], k);
    assert Collapse(ms) == ms;
    if IsListValue(v) {
      assert IsListValue(ms[0].value);
      assert ToListMembers(ms) == [ListMember(k, Items(v))];
    } else {
      assert !IsListValue(ms[0].value);
    }
  }

  // ---------------------------------------------------------------------------
  // The decoded parts of a value are smaller than the value.

  lemma {:induction false} SizeItemsAt(s: seq<Json>, k: nat)
    requires k < |s|
    ensures Size(s[k]) <= SizeItems(s)
  {
    if k > 0 { SizeItemsAt(s[1..], k - 1); }
  }

  lemma {:induction false} SizeListsAt(ls: seq<ListMember>, i: nat)
    requires i < |ls|
    ensures SizeItems(ls[i].items) < SizeLists(ls)
  {
    if i > 0 { SizeListsAt(ls[1..], i - 1); }
  }

  lemma {:induction false} ToListMembersSize(ms: seq<Member>)
    ensures SizeLists(ToListMembers(ms)) <= SizeMembers(ms)
  {
    if ms != [] {
      ToListMembersSize(ms[1..]);
      assert ToListMembers(ms)[1..] == ToListMembers(ms[1..]);
    }
  }

  lemma DecodeListMapSmaller(j: Json, ls: seq<ListMember>)
    requires DecodeListMap(j) == Some(ls)
    ensures SizeLists(ls) < Size(j)
  {
    if j.JObject? {
      CollapseSize(j.members);
      ToListMembersSize(Collapse(j.members));
    }
  }

  /** Every list element reached through a decoded list map is smaller than the map's value. */
  lemma ListItemSmaller(j: Json, ls: seq<ListMember>, i: nat, k: nat)
    requires DecodeListMap(j) == Some(ls)
    requires i < |ls| && k < |ls[i].items|
    ensures Size(ls[i].items[k]) < Size(j)
  {
    DecodeListMapSmaller(j, ls);
    SizeListsAt(ls, i);
    SizeItemsAt(ls[i].items, k);
  }
}
