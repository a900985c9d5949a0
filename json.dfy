/**
 * Parsed JSON values as Python's `json` module hands them to the program.
 * A JSON object becomes a Python `dict`, which keeps its keys in insertion
 * order; it is modelled as an ordered sequence of members. Subscripting
 * (`d[k]`) and subscript assignment (`d[k] = v`) are modelled by `Get` and
 * `Put` with the semantics of a Python dict: a lookup finds the member with
 * that key, an assignment to an existing key replaces its value where it
 * stands, and an assignment to a new key appends it at the end.
 */
module Json {
  import opened Wrappers

  /** A JSON value. Numbers stay abstract: only their literal text is kept. */
  datatype Json =
    | JNull
    | JBool(b: bool)
    | JNumber(literal: string)
    | JString(s: string)
    | JArray(items: seq<Json>)
    | JObject(members: Dict)

  /** One key/value pair of a JSON object. */
  datatype Member = Member(key: string, value: Json)

  /** A Python dict: its members in insertion order. */
  type Dict = seq<Member>

  /** The keys of a dict, in insertion order. */
  function Keys(d: Dict): (ks: seq<string>)
    ensures |ks| == |d|
    ensures forall i :: 0 <= i < |d| ==> ks[i] == d[i].key
  {
    seq(|d|, i requires 0 <= i < |d| => d[i].key)
  }

  /** A dict built by Python never holds the same key twice. */
  predicate DistinctKeys(d: Dict) {
    forall i, j :: 0 <= i < j < |d| ==> d[i].key != d[j].key
  }

  /** The position of key `k` in `d`, if `k` is a key of `d`. */
  function Find(d: Dict, k: string): (r: Option<nat>)
    ensures r.None? <==> k !in Keys(d)
    ensures r.Some? ==> r.value < |d| && d[r.value].key == k
    ensures r.Some? ==> forall j :: 0 <= j < r.value ==> d[j].key != k
  {
    if d == [] then None
    else if d[0].key == k then Some(0)
    else
      match Find(d[1..], k)
      case None => None
      case Some(i) => Some(i + 1)
  }

  /** `d[k]`: the value stored under `k`, or `None` where Python raises `KeyError`. */
  function Get(d: Dict, k: string): (r: Option<Json>)
    ensures r.Some? <==> k in Keys(d)
    ensures r.Some? ==> Member(k, r.value) in d
  {
    match Find(d, k)
    case None => None
    case Some(i) => Some(d[i].value)
  }

  /** `d[k] = v`: overwrite `k` in its existing position, or append it as the last key. */
  function Put(d: Dict, k: string, v: Json): (r: Dict)
    ensures k in Keys(d) ==> |r| == |d| && r[Find(d, k).value] == Member(k, v)
    ensures k in Keys(d) ==> forall i :: 0 <= i < |d| && i != Find(d, k).value ==> r[i] == d[i]
    ensures k !in Keys(d) ==> r == d + [Member(k, v)]
  {
    match Find(d, k)
    case None => d + [Member(k, v)]
    case Some(i) => d[i := Member(k, v)]
  }

  /** After `d[k] = v`, the keys are those of `d`, with `k` appended when it was new. */
  lemma PutKeys(d: Dict, k: string, v: Json)
    ensures Keys(Put(d, k, v)) == if k in Keys(d) then Keys(d) else Keys(d) + [k]
  {
    var r := Put(d, k, v);
    if k in Keys(d) {
      assert forall i :: 0 <= i < |r| ==> Keys(r)[i] == Keys(d)[i];
    } else {
      assert forall i :: 0 <= i < |r| ==> Keys(r)[i] == (Keys(d) + [k])[i];
    }
  }

  /** `d[k] = v` never duplicates a key. */
  lemma PutDistinct(d: Dict, k: string, v: Json)
    requires DistinctKeys(d)
    ensures DistinctKeys(Put(d, k, v))
  {
    PutKeys(d, k, v);
  }

  /** After `d[k] = v`, `k` maps to `v` and every other key maps to what it did before. */
  lemma PutGet(d: Dict, k: string, v: Json)
    ensures Get(Put(d, k, v), k) == Some(v)
    ensures forall q :: q != k ==> Get(Put(d, k, v), q) == Get(d, q)
  {
    var r := Put(d, k, v);
    PutKeys(d, k, v);
    if k in Keys(d) {
      FindSameKeys(r, d);
    } else {
      forall q ensures Find(r, q) == Find(d + [Member(k, v)], q) { }
      FindAppended(d, Member(k, v), k);
      forall q | q != k ensures Get(r, q) == Get(d, q) {
        FindAppended(d, Member(k, v), q);
      }
    }
  }

  /** Where a key is found depends on the keys alone. */
  lemma {:induction false} FindSameKeys(a: Dict, b: Dict)
    requires Keys(a) == Keys(b)
    ensures forall q :: Find(a, q) == Find(b, q)
  {
    if a != [] {
      assert Keys(a[1..]) == Keys(a)[1..] && Keys(b[1..]) == Keys(b)[1..];
      FindSameKeys(a[1..], b[1..]);
    }
  }

  /** Appending a member does not move the keys already present. */
  lemma {:induction false} FindAppended(d: Dict, m: Member, k: string)
    ensures Find(d + [m], k) == if k in Keys(d) then Find(d, k) else if m.key == k then Some(|d|) else None
  {
    if d != [] {
      assert (d + [m])[1..] == d[1..] + [m];
      FindAppended(d[1..], m, k);
    }
  }
}
