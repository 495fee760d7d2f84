/**
 * Reading the fields of one stored block record, a JSON object loaded from the chain file:
 * `record[key]`, which raises `KeyError` when the key is absent, and `record.get(key, default)`.
 */
module Records {
  import opened Wrappers
  import opened Json

  /** Why a stored record could not be turned back into a block. */
  datatype LoadError =
    | KeyError(key: string)   // a required field is absent
    | WrongType(key: string)  // a field holds another kind of JSON value than the chain writes

  /** The JSON form of an optional string: `None` is written as `null`. */
  function OptionalValue(s: Option<string>): Value {
    match s
    case Some(x) => Str(x)
    case None => Null
  }

  /** `record[key]` for a string field. */
  function RequiredStr(rec: Dict, key: string): (r: Result<string, LoadError>)
    ensures key !in rec ==> r == Err(KeyError(key))
    ensures key in rec && rec[key].Str? ==> r == Ok(rec[key].s)
    ensures key in rec && !rec[key].Str? ==> r == Err(WrongType(key))
    ensures r.Ok? ==> key in rec && rec[key] == Str(r.value)
  {
    if key !in rec then Err(KeyError(key))
    else match rec[key]
      case Str(s) => Ok(s)
      case _ => Err(WrongType(key))
  }

  /** `record[key]` for an integer field. */
  function RequiredInt(rec: Dict, key: string): (r: Result<int, LoadError>)
    ensures key !in rec ==> r == Err(KeyError(key))
    ensures key in rec && rec[key].Int? ==> r == Ok(rec[key].i)
    ensures key in rec && !rec[key].Int? ==> r == Err(WrongType(key))
    ensures r.Ok? ==> key in rec && rec[key] == Int(r.value)
  {
    if key !in rec then Err(KeyError(key))
    else match rec[key]
      case Int(i) => Ok(i)
      case _ => Err(WrongType(key))
  }

  /** `record[key]` for an object field. */
  function RequiredObject(rec: Dict, key: string): (r: Result<Dict, LoadError>)
    ensures key !in rec ==> r == Err(KeyError(key))
    ensures key in rec && rec[key].Object? ==> r == Ok(rec[key].fields)
    ensures key in rec && !rec[key].Object? ==> r == Err(WrongType(key))
    ensures r.Ok? ==> key in rec && rec[key] == Object(r.value)
  {
    if key !in rec then Err(KeyError(key))
    else match rec[key]
      case Object(m) => Ok(m)
      case _ => Err(WrongType(key))
  }

  /** `record.get(key)` for an optional string field: absent and `null` both give `None`. */
  function OptionalStr(rec: Dict, key: string): (r: Result<Option<string>, LoadError>)
    ensures key !in rec ==> r == Ok(None)
    ensures key in rec && rec[key].Null? ==> r == Ok(None)
    ensures key in rec && rec[key].Str? ==> r == Ok(Some(rec[key].s))
    ensures key in rec && !rec[key].Null? && !rec[key].Str? ==> r == Err(WrongType(key))
    ensures r.Ok? && key in rec ==> rec[key] == OptionalValue(r.value)
  {
    if key !in rec then Ok(None)
    else match rec[key]
      case Null => Ok(None)
      case Str(s) => Ok(Some(s))
      case _ => Err(WrongType(key))
  }

  /** `record.get(key, default)` for an integer field. */
  function IntOr(rec: Dict, key: string, default: int): (r: Result<int, LoadError>)
    ensures key !in rec ==> r == Ok(default)
    ensures key in rec && rec[key].Int? ==> r == Ok(rec[key].i)
    ensures key in rec && !rec[key].Int? ==> r == Err(WrongType(key))
    ensures r.Ok? && key in rec ==> rec[key] == Int(r.value)
  {
    if key !in rec then Ok(default)
    else match rec[key]
      case Int(i) => Ok(i)
      case _ => Err(WrongType(key))
  }

  /**
   * `load`'s loop over the whole file, for a reader `read` of one record: the blocks in file
   * order, or the error of the first record that cannot be read.
   */
  function FromDicts<B>(read: Dict -> Result<B, LoadError>, recs: seq<Dict>): (r: Result<seq<B>, LoadError>)
    ensures r.Ok? ==> |r.value| == |recs|
    ensures r.Ok? ==> forall i :: 0 <= i < |recs| ==> read(recs[i]) == Ok(r.value[i])
    ensures r.Err? ==> exists i :: 0 <= i < |recs| && read(recs[i]) == Err(r.error)
    decreases |recs|
  {
    if recs == [] then Ok([])
    else
      var init :- FromDicts(read, recs[..|recs| - 1]);
      var last :- read(recs[|recs| - 1]);
      Ok(init + [last])
  }

  /** Reading one more record: the blocks so far followed by its block, or its error. */
  lemma FromDictsStep<B>(read: Dict -> Result<B, LoadError>, recs: seq<Dict>, i: int)
    requires 0 <= i < |recs| && FromDicts(read, recs[..i]).Ok?
    ensures read(recs[i]).Ok? ==>
              FromDicts(read, recs[..i + 1]) == Ok(FromDicts(read, recs[..i]).value + [read(recs[i]).value])
    ensures read(recs[i]).Err? ==> FromDicts(read, recs[..i + 1]) == Err(read(recs[i]).error)
  {
    assert recs[..i + 1][..i] == recs[..i];
  }

  /** Once a prefix of the file fails to load, the whole file fails with the same error. */
  lemma {:induction false} FromDictsStopsAtError<B>(read: Dict -> Result<B, LoadError>, recs: seq<Dict>, n: int)
    requires 0 <= n <= |recs| && FromDicts(read, recs[..n]).Err?
    ensures FromDicts(read, recs) == FromDicts(read, recs[..n])
    decreases |recs|
  {
    if n < |recs| {
      var init := recs[..|recs| - 1];
      assert init[..n] == recs[..n];
      FromDictsStopsAtError(read, init, n);
    } else {
      assert recs[..n] == recs;
    }
  }
}
