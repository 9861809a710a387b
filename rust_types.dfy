/** The Rust vocabulary the model is written in: `Option`, the fixed-width
    unsigned integers the records carry, an `f64` that is only ever copied,
    and `HashMap::from` over a literal array of entries. */
module RustTypes {

  datatype Option<+T> = None | Some(value: T)

  newtype u8 = x: int | 0 <= x < 0x100
  newtype u16 = x: int | 0 <= x < 0x1_0000
  newtype u32 = x: int | 0 <= x < 0x1_0000_0000
  newtype u64 = x: int | 0 <= x < 0x1_0000_0000_0000_0000

  /** An `f64` the model never does arithmetic on, kept as its IEEE 754 bit pattern. */
  datatype F64 = F64(bits: bv64)

  /** The keys occurring in a list of entries. */
  function KeysOf<K(==), V>(entries: seq<(K, V)>): set<K>
  {
    set i | 0 <= i < |entries| :: entries[i].0
  }

  /** No key occurs twice in the list. */
  predicate DistinctKeys<K(==), V>(entries: seq<(K, V)>)
  {
    forall i, j :: 0 <= i < j < |entries| ==> entries[i].0 != entries[j].0
  }

  /** `HashMap::from(array)`: the entries are inserted in order, so a later
      entry with a key already present replaces the earlier one. */
  function HashMapFrom<K(==), V>(entries: seq<(K, V)>): (m: map<K, V>)
    ensures m.Keys == KeysOf(entries)
  {
    if entries == [] then map[]
    else
      var last := entries[|entries| - 1];
      var front := entries[..|entries| - 1];
      assert KeysOf(entries) == KeysOf(front) + {last.0} by {
        assert forall i :: 0 <= i < |front| ==> entries[i] == front[i];
      }
      HashMapFrom(front)[last.0 := last.1]
  }

  /** With distinct keys nothing is replaced: the map has one key per entry
      and maps each entry's key to that entry's value. */
  lemma {:induction false} HashMapFromDistinct<K, V>(entries: seq<(K, V)>)
    requires DistinctKeys(entries)
    ensures |HashMapFrom(entries)| == |entries|
    ensures forall i :: 0 <= i < |entries| ==> HashMapFrom(entries)[entries[i].0] == entries[i].1
  {
    if entries != [] {
      var front := entries[..|entries| - 1];
      var last := entries[|entries| - 1];
      assert DistinctKeys(front) by {
        assert forall i :: 0 <= i < |front| ==> front[i] == entries[i];
      }
      HashMapFromDistinct(front);
      assert last.0 !in KeysOf(front) by {
        forall i | 0 <= i < |front| ensures front[i].0 != last.0 {
          assert front[i] == entries[i];
        }
      }
      forall i | 0 <= i < |entries| - 1
        ensures HashMapFrom(entries)[entries[i].0] == entries[i].1
      {
        assert front[i] == entries[i];
      }
    }
  }

  /** Two lists with the same keys, position by position, whose values are
      related by `f` give maps with the same keys and values related by `f`. */
  lemma {:induction false} HashMapFromMapped<K, V, W>(a: seq<(K, V)>, b: seq<(K, W)>, f: V -> W)
    requires |a| == |b|
    requires forall i :: 0 <= i < |a| ==> b[i].0 == a[i].0 && b[i].1 == f(a[i].1)
    ensures HashMapFrom(b).Keys == HashMapFrom(a).Keys
    ensures forall k :: k in HashMapFrom(a) ==> HashMapFrom(b)[k] == f(HashMapFrom(a)[k])
  {
    if a != [] {
      var n := |a| - 1;
      HashMapFromMapped(a[..n], b[..n], f);
      assert KeysOf(b) == KeysOf(a) by {
        assert forall i :: 0 <= i < |a| ==> b[i].0 == a[i].0;
      }
    }
  }
}
