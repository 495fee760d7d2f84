/**
 * JSON values as the chain stores them, and the canonical sorted-key form that
 * `json.dumps(value, sort_keys=True)` produces before the text is hashed with SHA-256.
 */
module Json {
  import StringOrder

  /** A JSON value of the kinds a block holds: null, integers, strings and nested objects. */
  datatype Value = Null | Int(i: int) | Str(s: string) | Object(fields: map<string, Value>)

  /** A JSON object, such as a block's `__dict__` or its metadata. */
  type Dict = map<string, Value>

  /**
   * The canonical document: what `json.dumps(..., sort_keys=True)` writes, with the text
   * itself abstracted. An object is the list of its members in the order they are written.
   */
  datatype Doc = DNull | DInt(i: int) | DStr(s: string) | DObject(members: seq<Member>)
  datatype Member = Member(key: string, doc: Doc)

  function Keys(ms: seq<Member>): (ks: seq<string>)
    ensures |ks| == |ms| && forall i :: 0 <= i < |ms| ==> ks[i] == ms[i].key
  {
    seq(|ms|, i requires 0 <= i < |ms| => ms[i].key)
  }

  /** `json.dumps(v, sort_keys=True)`: every object's members are written in increasing key order. */
  function Encode(v: Value): Doc {
    match v
    case Null => DNull
    case Int(i) => DInt(i)
    case Str(s) => DStr(s)
    case Object(m) =>
      var keys := StringOrder.Sorted(m.Keys);
      StringOrder.SortedListsKeys(m.Keys);
      var ms := seq(|keys|, i requires 0 <= i < |keys| => Member(keys[i], Encode(m[keys[i]])));
      assert Keys(ms) == keys;
      DObject(ms)
  }

  /**
   * An object is written as exactly its keys, in strictly increasing order, each with the
   * encoding of its value: the text depends on the key set alone, not on insertion order.
   */
  lemma EncodeSortsKeys(m: Dict)
    ensures Encode(Object(m)).DObject?
    ensures StringOrder.StrictlyIncreasing(Keys(Encode(Object(m)).members))
    ensures forall k :: k in m <==> k in Keys(Encode(Object(m)).members)
    ensures forall mb | mb in Encode(Object(m)).members :: mb.key in m && mb.doc == Encode(m[mb.key])
  {
    var keys := StringOrder.Sorted(m.Keys);
    StringOrder.SortedListsKeys(m.Keys);
    assert Keys(Encode(Object(m)).members) == keys;
  }

  /** `json.loads` of a canonical document; a repeated key keeps its last value, as in Python. */
  function Decode(d: Doc): Value {
    match d
    case DNull => Null
    case DInt(i) => Int(i)
    case DStr(s) => Str(s)
    case DObject(ms) => Object(DecodeMembers(ms))
  }

  function DecodeMembers(ms: seq<Member>): Dict {
    if ms == [] then map[]
    else DecodeMembers(ms[..|ms| - 1])[ms[|ms| - 1].key := Decode(ms[|ms| - 1].doc)]
  }

  predicate DistinctKeys(ms: seq<Member>) {
    forall i, j :: 0 <= i < j < |ms| ==> ms[i].key != ms[j].key
  }

  lemma {:induction false} DecodeMembersLookup(ms: seq<Member>)
    requires DistinctKeys(ms)
    ensures forall k :: k in DecodeMembers(ms) <==> k in Keys(ms)
    ensures forall i :: 0 <= i < |ms| ==> DecodeMembers(ms)[ms[i].key] == Decode(ms[i].doc)
  {
    if ms != [] {
      var init := ms[..|ms| - 1];
      DecodeMembersLookup(init);
      forall k
        ensures k in Keys(ms) <==> k in Keys(init) || k == ms[|ms| - 1].key
      {
        if k in Keys(ms) {
          var i :| 0 <= i < |ms| && Keys(ms)[i] == k;
          if i < |ms| - 1 {
            assert Keys(init)[i] == k;
          }
        }
        if k in Keys(init) {
          var i :| 0 <= i < |init| && Keys(init)[i] == k;
          assert Keys(ms)[i] == k;
        }
      }
    }
  }

  /** Member lists whose keys strictly increase never repeat a key. */
  lemma IncreasingKeysDistinct(ms: seq<Member>)
    requires StringOrder.StrictlyIncreasing(Keys(ms))
    ensures DistinctKeys(ms)
  {
    forall i, j | 0 <= i < j < |ms|
      ensures ms[i].key != ms[j].key
    {
      StringOrder.LessIrreflexive(ms[i].key);
    }
  }

  /** The object case of `DecodeEncode`, given that it holds for every field value. */
  lemma DecodeEncodeObject(m: Dict)
    requires forall k | k in m :: Decode(Encode(m[k])) == m[k]
    ensures Decode(Encode(Object(m))) == Object(m)
  {
    var ms := Encode(Object(m)).members;
    var keys := StringOrder.Sorted(m.Keys);
    StringOrder.SortedListsKeys(m.Keys);
    assert Keys(ms) == keys;
    IncreasingKeysDistinct(ms);
    DecodeMembersLookup(ms);
    var d := DecodeMembers(ms);
    forall k | k in m
      ensures k in d && d[k] == m[k]
    {
      var i :| 0 <= i < |keys| && keys[i] == k;
      assert ms[i] == Member(k, Encode(m[k]));
    }
    assert d == m;
  }

  /** Decoding the canonical document gives back the value: the encoding loses nothing. */
  lemma {:induction false} DecodeEncode(v: Value)
    ensures Decode(Encode(v)) == v
    decreases v
  {
    match v
    case Null =>
    case Int(_) =>
    case Str(_) =>
    case Object(m) =>
      forall k | k in m
        ensures Decode(Encode(m[k])) == m[k]
      {
        DecodeEncode(m[k]);
      }
      DecodeEncodeObject(m);
  }

  /** Two values with the same canonical document are the same value. */
  lemma EncodeInjective(v1: Value, v2: Value)
    requires Encode(v1) == Encode(v2)
    ensures v1 == v2
  {
    DecodeEncode(v1);
    DecodeEncode(v2);
  }

  /**
   * `sha256(json.dumps(., sort_keys=True).encode()).hexdigest()`: SHA-256 of the canonical
   * text, seen as a function of the canonical document.
   */
  type Digest = Doc -> string

  /** The assumption that the digest has no collisions. */
  ghost predicate CollisionFree(H: Digest) {
    forall d1, d2 :: H(d1) == H(d2) ==> d1 == d2
  }

  /** The hex digest of a JSON object's canonical text. */
  function HashOf(H: Digest, d: Dict): string {
    H(Encode(Object(d)))
  }

  /** With a collision-free digest, equal hashes mean equal objects. */
  lemma HashOfInjective(H: Digest, d1: Dict, d2: Dict)
    requires CollisionFree(H)
    requires HashOf(H, d1) == HashOf(H, d2)
    ensures d1 == d2
  {
    EncodeInjective(Object(d1), Object(d2));
  }
}
