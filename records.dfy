/** A process record: the `Dictionary<string, string>` the analyzer fills,
    as its key/value pairs in insertion order (the order the serialiser
    prints them in). Writing an existing key replaces its value in place. */
module ProcessRecords {
  import opened Wrappers

  type Record = seq<(string, string)>

  /** The keys, in the record's order. */
  function Keys(r: Record): (ks: seq<string>)
    ensures |ks| == |r|
    ensures forall i :: 0 <= i < |r| ==> ks[i] == r[i].0
  {
    if r == [] then [] else [r[0].0] + Keys(r[1..])
  }

  /** No key appears twice. */
  predicate UniqueKeys(r: Record) {
    forall i, j :: 0 <= i < j < |r| ==> r[i].0 != r[j].0
  }

  /** The dictionary getter; `None` where C# raises `KeyNotFoundException`. */
  function Get(r: Record, k: string): Option<string> {
    if r == [] then None
    else if r[0].0 == k then Some(r[0].1)
    else Get(r[1..], k)
  }

  /** A read fails exactly when the key is not in the record. */
  lemma {:induction false} GetAbsent(r: Record, k: string)
    ensures Get(r, k).None? <==> k !in Keys(r)
  {
    if r != [] {
      GetAbsent(r[1..], k);
      assert Keys(r) == [r[0].0] + Keys(r[1..]);
    }
  }

  /** The dictionary indexer `r[k] = v`. */
  function Set(r: Record, k: string, v: string): Record {
    if r == [] then [(k, v)]
    else if r[0].0 == k then [(k, v)] + r[1..]
    else [r[0]] + Set(r[1..], k, v)
  }

  /** After a write, the key reads back the written value. */
  lemma {:induction false} GetSetSame(r: Record, k: string, v: string)
    ensures Get(Set(r, k, v), k) == Some(v)
  {
    if r != [] && r[0].0 != k {
      GetSetSame(r[1..], k, v);
    }
  }

  /** A write leaves every other key's value as it was. */
  lemma {:induction false} GetSetOther(r: Record, k: string, v: string, k': string)
    requires k' != k
    ensures Get(Set(r, k, v), k') == Get(r, k')
  {
    if r != [] && r[0].0 != k {
      GetSetOther(r[1..], k, v, k');
    }
  }

  /** Writing an existing key keeps every key where it was; a new key goes
      at the end. */
  lemma {:induction false} SetKeys(r: Record, k: string, v: string)
    ensures Keys(Set(r, k, v)) == if k in Keys(r) then Keys(r) else Keys(r) + [k]
  {
    if r != [] && r[0].0 != k {
      SetKeys(r[1..], k, v);
      assert Keys(r) == [r[0].0] + Keys(r[1..]);
    }
  }

  /** A write keeps the keys unique. */
  lemma SetUnique(r: Record, k: string, v: string)
    requires UniqueKeys(r)
    ensures UniqueKeys(Set(r, k, v))
  {
    var r' := Set(r, k, v);
    var ks, ks' := Keys(r), Keys(r');
    SetKeys(r, k, v);
    forall i, j | 0 <= i < j < |r'| ensures r'[i].0 != r'[j].0 {
      assert ks'[i] == r'[i].0 && ks'[j] == r'[j].0;
      if k in ks {
        assert ks[i] == r[i].0 && ks[j] == r[j].0;
      } else if j < |r| {
        assert ks[i] == r[i].0 && ks[j] == r[j].0;
      } else {
        assert ks'[j] == k && ks'[i] == ks[i];
      }
    }
  }
}
