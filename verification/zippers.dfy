/** `IterableZipper` (the builtin `zip`) and `MappingZipper` (a zip over the
    keys common to every mapping). */
module Zippers {
  import opened Errors
  import opened Dicts

  /** The length of the shortest input; `0` when there are no inputs. */
  function MinLen<V>(ss: seq<seq<V>>): (n: nat)
    ensures ss == [] ==> n == 0
    ensures forall j :: 0 <= j < |ss| ==> n <= |ss[j]|
    ensures ss != [] ==> exists j :: 0 <= j < |ss| && n == |ss[j]|
  {
    if ss == [] then 0
    else if |ss| == 1 then |ss[0]|
    else
      var m := MinLen(ss[1..]);
      assert forall j :: 1 <= j < |ss| ==> ss[j] == ss[1..][j - 1];
      if |ss[0]| <= m then |ss[0]| else m
  }

  /** The `k`-th element of every input. */
  function Column<V>(ss: seq<seq<V>>, k: nat): (c: seq<V>)
    requires k < MinLen(ss)
    ensures |c| == |ss| && forall j :: 0 <= j < |ss| ==> c[j] == ss[j][k]
  {
    seq(|ss|, j requires 0 <= j < |ss| => ss[j][k])
  }

  /** The tuples `zip` still yields once `k` of them have been taken: one more
      per step, until the shortest input runs out. */
  function ZipFrom<V>(ss: seq<seq<V>>, k: nat): (r: seq<seq<V>>)
    requires k <= MinLen(ss)
    ensures |r| == MinLen(ss) - k
    ensures forall i :: 0 <= i < |r| ==> r[i] == Column(ss, k + i)
    decreases MinLen(ss) - k
  {
    if k == MinLen(ss) then [] else [Column(ss, k)] + ZipFrom(ss, k + 1)
  }

  /** `zip(*iterables)`: one tuple per position, taken across the inputs, as
      long as no input is exhausted. */
  function IterableZipper<V>(ss: seq<seq<V>>): (r: seq<seq<V>>)
    ensures |r| == MinLen(ss)
    ensures forall i :: 0 <= i < |r| ==> |r[i]| == |ss|
    ensures forall i, j :: 0 <= i < |r| && 0 <= j < |ss| ==> i < |ss[j]| && r[i][j] == ss[j][i]
  {
    ZipFrom(ss, 0)
  }

  /** Whether `k` is a key of every mapping. */
  function InAll<K(==, !new), V>(k: K, ms: seq<seq<(K, V)>>): (b: bool)
    ensures b <==> forall j :: 0 <= j < |ms| ==> k in KeysOf(ms[j])
  {
    forall j | 0 <= j < |ms| :: k in KeysOf(ms[j])
  }

  /** The keys among `ks` present in every mapping, in the order of `ks`. */
  function Common<K(==, !new), V>(ks: seq<K>, ms: seq<seq<(K, V)>>): (r: seq<K>)
    ensures forall k :: k in r <==> k in ks && InAll(k, ms)
  {
    if ks == [] then []
    else
      var rest := Common(ks[1..], ms);
      if InAll(ks[0], ms) then [ks[0]] + rest else rest
  }

  /** `MappingZipper(*mappings)`: one `(key, values)` pair per key common to
      every mapping, the values taken from each mapping in argument order.
      Without any mapping, `reduce` on an empty sequence raises `TypeError`. */
  function MappingZipper<K(==, !new), V>(ms: seq<seq<(K, V)>>): (r: Result<seq<(K, seq<V>)>>)
    ensures r.Err? <==> ms == []
    ensures r.Err? ==> r.error == TypeError
    ensures r.Ok? ==> KeysOf(r.value) == Common(KeysOf(ms[0]), ms)
    ensures r.Ok? ==> forall i :: 0 <= i < |r.value| ==> |r.value[i].1| == |ms|
    ensures r.Ok? ==> forall i, j :: 0 <= i < |r.value| && 0 <= j < |ms| ==>
      r.value[i].0 in KeysOf(ms[j]) && r.value[i].1[j] == Get(ms[j], r.value[i].0)
  {
    if ms == [] then Err(TypeError)
    else
      var ks := Common(KeysOf(ms[0]), ms);
      assert forall i :: 0 <= i < |ks| ==> ks[i] in ks && InAll(ks[i], ms);
      var r := seq(|ks|, i requires 0 <= i < |ks| =>
        (ks[i], seq(|ms|, j requires 0 <= j < |ms| => Get(ms[j], ks[i]))));
      assert KeysOf(r) == ks;
      assert forall k :: k in KeysOf(r) <==> k in ks by {
        forall k ensures k in KeysOf(r) <==> k in ks {
          if k in ks {
            var i :| 0 <= i < |ks| && ks[i] == k;
            assert KeysOf(r)[i] == k;
          }
        }
      }
      Ok(r)
  }

  /** Filtering keeps distinct keys distinct. */
  lemma {:induction false} CommonUnique<K(!new), V>(ks: seq<K>, ms: seq<seq<(K, V)>>)
    requires forall i, j :: 0 <= i < j < |ks| ==> ks[i] != ks[j]
    ensures forall p, q :: 0 <= p < q < |Common(ks, ms)| ==> Common(ks, ms)[p] != Common(ks, ms)[q]
    decreases |ks|
  {
    if ks != [] {
      var t := ks[1..];
      assert forall i, j :: 0 <= i < j < |t| ==> t[i] != t[j] by {
        forall i, j | 0 <= i < j < |t| ensures t[i] != t[j] { assert t[i] == ks[i + 1] && t[j] == ks[j + 1]; }
      }
      CommonUnique(t, ms);
      assert ks[0] !in t by {
        forall k | 0 <= k < |t| ensures t[k] != ks[0] { assert t[k] == ks[k + 1]; }
      }
      var rest := Common(t, ms);
      if InAll(ks[0], ms) {
        assert ks[0] !in rest;
        var r := [ks[0]] + rest;
        forall p, q | 0 <= p < q < |r| ensures r[p] != r[q] {
          if p == 0 { assert r[q] == rest[q - 1]; assert rest[q - 1] in rest; }
          else { assert r[p] == rest[p - 1] && r[q] == rest[q - 1]; }
        }
      }
    }
  }

  /** Zipping dictionaries gives a dictionary: its keys are unique when the
      first mapping's keys are. */
  lemma MappingZipperUniqueKeys<K(!new), V>(ms: seq<seq<(K, V)>>)
    requires ms != [] && UniqueKeys(ms[0])
    ensures MappingZipper(ms).Ok? && UniqueKeys(MappingZipper(ms).value)
  {
    var ks := KeysOf(ms[0]);
    CommonUnique(ks, ms);
    var r := MappingZipper(ms).value;
    forall i, j | 0 <= i < j < |r| ensures r[i].0 != r[j].0 {
      assert r[i].0 == Common(ks, ms)[i] && r[j].0 == Common(ks, ms)[j];
    }
  }
}
