/** Whole runs of a dictionary against a plain map. */
module DictRun {
  import opened Bytes
  import opened DictTable
  import opened DictMap
  import opened Dict

  datatype Op<K, V> =
    | OpAdd(key: K, val: V, canResize: bool)
    | OpReplace(key: K, val: V, canResize: bool)
    | OpFind(key: K)
    | OpDelete(key: K)
    | OpRehash(steps: nat)
    | OpResize(canResize: bool)
    | OpExpand(size: nat)

  /** What the caller learns; maintenance calls report nothing about the contents. */
  datatype Answer<V> = Status(ok: bool) | Value(found: Option<V>) | Silent

  function MapAfter<K, V>(m: map<K, V>, op: Op<K, V>): map<K, V> {
    match op
    case OpAdd(k, v, _) => if k in m then m else m[k := v]
    case OpReplace(k, v, _) => m[k := v]
    case OpDelete(k) => m - {k}
    case _ => m
  }

  function MapAnswer<K, V>(m: map<K, V>, op: Op<K, V>): Answer<V> {
    match op
    case OpAdd(k, _, _) => Status(k !in m)
    case OpReplace(k, _, _) => Status(k !in m)
    case OpFind(k) => Value(At(m, k))
    case OpDelete(k) => Status(k in m)
    case _ => Silent
  }

  function MapRun<K, V>(m: map<K, V>, ops: seq<Op<K, V>>): map<K, V> {
    if ops == [] then m else MapAfter(MapRun(m, ops[..|ops| - 1]), ops[|ops| - 1])
  }

  function MapAnswers<K, V>(m: map<K, V>, ops: seq<Op<K, V>>): seq<Answer<V>> {
    if ops == [] then []
    else
      var before := ops[..|ops| - 1];
      MapAnswers(m, before) + [MapAnswer(MapRun(m, before), ops[|ops| - 1])]
  }

  /** Only operations that never pick a table size by hand or hold back growth. */
  ghost predicate Ordinary<K, V>(op: Op<K, V>) {
    match op
    case OpAdd(_, _, canResize) => canResize
    case OpReplace(_, _, canResize) => canResize
    case OpResize(_) => false
    case OpExpand(_) => false
    case _ => true
  }

  method Step<K(!new, ==), V>(d: Dictionary<K, V>, op: Op<K, V>) returns (a: Answer<V>)
    requires d.Valid() && 2 * |d.Contents| < LONG_MAX
    requires op.OpExpand? ==> op.size < LONG_MAX
    modifies d
    ensures d.Valid()
    ensures d.iterators == old(d.iterators)
    ensures d.Contents == MapAfter(old(d.Contents), op) && a == MapAnswer(old(d.Contents), op)
    ensures |d.Contents| <= |old(d.Contents)| + 1
    ensures Ordinary(op) && d.iterators == 0 && old(d.Bounded()) ==> d.Bounded()
  {
    if op.OpRehash? || op.OpResize? || op.OpExpand? {
      Maintain(d, op);
      a := Silent;
    } else {
      a := Access(d, op);
    }
  }

  /** Calls that only move entries between tables or change table sizes. */
  method Maintain<K(!new, ==), V>(d: Dictionary<K, V>, op: Op<K, V>)
    requires d.Valid() && 2 * |d.Contents| < LONG_MAX
    requires op.OpRehash? || op.OpResize? || (op.OpExpand? && op.size < LONG_MAX)
    modifies d`ht0, d`ht1, d`used0, d`used1, d`rehashidx
    ensures d.Valid()
    ensures op.OpRehash? && old(d.Bounded()) ==> d.Bounded()
  {
    match op
    case OpRehash(steps) => var _ := d.Rehash(steps);
    case OpResize(canResize) => var _ := d.Resize(canResize);
    case OpExpand(size) => var _ := d.Expand(size);
  }

  method Access<K(!new, ==), V>(d: Dictionary<K, V>, op: Op<K, V>) returns (a: Answer<V>)
    requires d.Valid() && 2 * |d.Contents| < LONG_MAX
    requires op.OpAdd? || op.OpReplace? || op.OpFind? || op.OpDelete?
    modifies d`ht0, d`ht1, d`used0, d`used1, d`rehashidx, d`Contents
    ensures d.Valid()
    ensures d.Contents == MapAfter(old(d.Contents), op) && a == MapAnswer(old(d.Contents), op)
    ensures |d.Contents| <= |old(d.Contents)| + 1
    ensures Ordinary(op) && d.iterators == 0 && old(d.Bounded()) ==> d.Bounded()
  {
    MapAfterSize(d.Contents, op);
    match op
    case OpAdd(k, v, canResize) =>
      var ok := d.Add(k, v, canResize);
      a := Status(ok);
    case OpReplace(k, v, canResize) =>
      var ok := d.Replace(k, v, canResize);
      a := Status(ok);
    case OpFind(k) =>
      var v := d.FetchValue(k);
      a := Value(v);
    case OpDelete(k) =>
      var ok := d.Delete(k);
      a := Status(ok);
  }

  lemma MapAfterSize<K, V>(m: map<K, V>, op: Op<K, V>)
    ensures |MapAfter(m, op)| <= |m| + 1
  {
    var m' := MapAfter(m, op);
    if op.OpAdd? || op.OpReplace? {
      assert m'.Keys <= m.Keys + {op.key};
      SubsetSize(m'.Keys, m.Keys + {op.key});
    } else {
      SubsetSize(m'.Keys, m.Keys);
    }
  }

  lemma {:induction false} SubsetSize<T>(a: set<T>, b: set<T>)
    requires a <= b
    ensures |a| <= |b|
    decreases b
  {
    if x :| x in b {
      SubsetSize(a - {x}, b - {x});
      assert x in a ==> |a - {x}| == |a| - 1;
      assert x !in a ==> a - {x} == a;
    }
  }

  /** Every run from any valid state, rehashing or not, behaves as the map does; and a run
      of ordinary operations never lets the entries outgrow the table being filled. */
  method Run<K(!new, ==), V>(d: Dictionary<K, V>, ops: seq<Op<K, V>>) returns (answers: seq<Answer<V>>)
    requires d.Valid() && 2 * (|d.Contents| + |ops|) < LONG_MAX
    requires forall i :: 0 <= i < |ops| && ops[i].OpExpand? ==> ops[i].size < LONG_MAX
    modifies d
    ensures d.Valid()
    ensures d.iterators == old(d.iterators) && |d.Contents| <= |old(d.Contents)| + |ops|
    ensures d.Contents == MapRun(old(d.Contents), ops)
    ensures answers == MapAnswers(old(d.Contents), ops)
    ensures old(d.Bounded()) && d.iterators == 0 && (forall op :: op in ops ==> Ordinary(op)) ==> d.Bounded()
    decreases ops
  {
    if ops == [] { return []; }
    var before, last := ops[..|ops| - 1], ops[|ops| - 1];
    answers := Run(d, before);
    var a := Step(d, last);
    answers := answers + [a];
  }
}
