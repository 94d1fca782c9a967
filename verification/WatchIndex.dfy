/** The two-way index of WATCHed keys, as values. */
module WatchIndex {
  type Id = nat

  /** A database number and a key. */
  datatype Watched<K> = Watched(db: nat, key: K)

  /** The keys each client watches. */
  type KeyLists<K> = map<Id, seq<Watched<K>>>

  /** The clients that watch each key. */
  type Index<K(==)> = map<Watched<K>, seq<Id>>

  ghost predicate NoDup<T(!new)>(s: seq<T>) {
    forall i, j :: 0 <= i < j < |s| ==> s[i] != s[j]
  }

  ghost predicate Listed<K(!new)>(index: Index<K>, k: Watched<K>, c: Id) {
    k in index && c in index[k]
  }

  ghost predicate Watches<K(!new)>(watched: KeyLists<K>, c: Id, k: Watched<K>) {
    c in watched && k in watched[c]
  }

  /** The client lists of the databases and the key lists of the clients are inverses, without
      duplicates and without empty client lists. */
  ghost predicate Inverse<K(!new)>(index: Index<K>, watched: KeyLists<K>) {
    && (forall k, c :: Listed(index, k, c) <==> Watches(watched, c, k))
    && (forall k :: k in index ==> index[k] != [] && NoDup(index[k]))
    && (forall c :: c in watched ==> NoDup(watched[c]))
  }

  // ---------------------------------------------------------------- adding a pair

  function Appended<K(==)>(index: Index<K>, k: Watched<K>, c: Id): Index<K> {
    index[k := (if k in index then index[k] else []) + [c]]
  }

  lemma AddPair<K(!new)>(index: Index<K>, watched: KeyLists<K>, c: Id, k: Watched<K>)
    requires Inverse(index, watched) && c in watched && k !in watched[c]
    ensures Inverse(Appended(index, k, c), watched[c := watched[c] + [k]])
  {
    var index', watched' := Appended(index, k, c), watched[c := watched[c] + [k]];
    assert !Listed(index, k, c) by { assert !Watches(watched, c, k); }
    forall k', c' ensures Listed(index', k', c') <==> Watches(watched', c', k') {
      assert Listed(index, k', c') <==> Watches(watched, c', k');
    }
  }

  // ---------------------------------------------------------------- removing a pair

  /** s without the element at the place where x is found. */
  function Without<T(==)>(s: seq<T>, x: T): (r: seq<T>)
    requires x in s
    ensures |r| == |s| - 1
  {
    if s[0] == x then s[1..] else [s[0]] + Without(s[1..], x)
  }

  lemma {:induction false} WithoutMembers<T(!new)>(s: seq<T>, x: T)
    requires x in s && NoDup(s)
    ensures NoDup(Without(s, x)) && forall y :: y in Without(s, x) <==> y in s && y != x
  {
    assert s == [s[0]] + s[1..];
    if s[0] != x {
      WithoutMembers(s[1..], x);
      var r := Without(s[1..], x);
      assert s[0] !in r;
      assert forall i :: 0 <= i < |r| ==> r[i] in r;
    }
  }

  function Removed<K(==)>(index: Index<K>, k: Watched<K>, c: Id): Index<K>
    requires k in index && c in index[k]
  {
    var rest := Without(index[k], c);
    if rest == [] then index - {k} else index[k := rest]
  }

  lemma RemovePair<K(!new)>(index: Index<K>, watched: KeyLists<K>, c: Id)
    requires Inverse(index, watched) && c in watched && watched[c] != []
    ensures Listed(index, watched[c][0], c)
    ensures Inverse(Removed(index, watched[c][0], c), watched[c := watched[c][1..]])
  {
    var k := watched[c][0];
    assert Watches(watched, c, k);
    var index', watched' := Removed(index, k, c), watched[c := watched[c][1..]];
    WithoutMembers(index[k], c);
    assert watched[c] == [k] + watched[c][1..];
    forall k', c' ensures Listed(index', k', c') <==> Watches(watched', c', k') {
      assert Listed(index, k', c') <==> Watches(watched, c', k');
    }
  }

  lemma UpdateTwice<V>(m: map<Id, V>, c: Id, a: V, b: V)
    ensures m[c := a][c := b] == m[c := b]
  {
  }

  lemma RemoveUpdated<V>(m: map<Id, V>, c: Id, v: V)
    ensures m[c := v] - {c} == m - {c}
  {
  }

  // ---------------------------------------------------------------- clients come and go

  lemma AddClient<K(!new)>(index: Index<K>, watched: KeyLists<K>, c: Id)
    requires Inverse(index, watched) && c !in watched
    ensures Inverse(index, watched[c := []])
  {
    forall k', c' ensures Listed(index, k', c') <==> Watches(watched[c := []], c', k') {
      assert Listed(index, k', c') <==> Watches(watched, c', k');
    }
  }

  lemma DropClient<K(!new)>(index: Index<K>, watched: KeyLists<K>, c: Id)
    requires Inverse(index, watched) && c in watched && watched[c] == []
    ensures Inverse(index, watched - {c})
  {
    forall k', c' ensures Listed(index, k', c') <==> Watches(watched - {c}, c', k') {
      assert Listed(index, k', c') <==> Watches(watched, c', k');
    }
  }
}
