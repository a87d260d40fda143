/** The sorted key-value engine the column families live in (RocksDB in the
    source), as the operations `column_family.rs` uses: point read
    (`get_cf`), write (`put_cf`), delete (`delete_cf`), an ordered scan from
    the start (`iterator_cf(.., IteratorMode::Start)`) and a batch of deletes
    applied in one step (`write(WriteBatch)`). Each column family is a
    sequence of (key, value) entries in strictly ascending key order, which
    is the order a scan visits them in. */
module SortedStore {
  import opened Wrappers
  import opened Lex

  newtype byte = x: int | 0 <= x < 256
  type Bytes = seq<byte>

  /** One stored (key, encoded value) pair. */
  type Entry = (string, Bytes)

  /** Strictly ascending keys, hence no key twice. */
  predicate Sorted(es: seq<Entry>)
  {
    forall i, j :: 0 <= i < j < |es| ==> Less(es[i].0, es[j].0)
  }

  /** Every key of `es` is greater than `k`. */
  predicate Above(k: string, es: seq<Entry>)
  {
    forall i :: 0 <= i < |es| ==> Less(k, es[i].0)
  }

  function KeysOf(es: seq<Entry>): (ks: seq<string>)
    ensures |ks| == |es| && forall i :: 0 <= i < |es| ==> ks[i] == es[i].0
  {
    if es == [] then [] else [es[0].0] + KeysOf(es[1..])
  }

  /** The key-to-value map the entries stand for (with repeated keys the
      first entry would win; sorted entries have none). */
  ghost function Contents(es: seq<Entry>): map<string, Bytes>
  {
    if es == [] then map[] else Contents(es[1..])[es[0].0 := es[0].1]
  }

  /** `get_cf`: the value stored under `k`, if any. */
  function Lookup(es: seq<Entry>, k: string): (r: Option<Bytes>)
    ensures r == if k in Contents(es) then Some(Contents(es)[k]) else None
  {
    if es == [] then None
    else if es[0].0 == k then Some(es[0].1)
    else Lookup(es[1..], k)
  }

  /** `put_cf`: overwrite the entry for `k`, or insert one in key order. */
  function Put(es: seq<Entry>, k: string, v: Bytes): (r: seq<Entry>)
    ensures |es| <= |r| <= |es| + 1
    ensures Lookup(r, k) == Some(v)
  {
    if es == [] then [(k, v)]
    else if es[0].0 == k then [(k, v)] + es[1..]
    else if Less(k, es[0].0) then [(k, v)] + es
    else
      var rest := Put(es[1..], k, v);
      assert ([es[0]] + rest)[1..] == rest;
      [es[0]] + rest
  }

  /** Deleting every key of `ks` (`delete_cf` is the case of one key, a
      `WriteBatch` of deletes the general case). Absent keys are no error. */
  function Delete(es: seq<Entry>, ks: seq<string>): (r: seq<Entry>)
    ensures |r| <= |es|
    ensures forall i :: 0 <= i < |r| ==> r[i].0 !in ks
  {
    if es == [] then []
    else
      var head, rest := if es[0].0 in ks then [] else [es[0]], Delete(es[1..], ks);
      assert forall i :: |head| <= i < |head| + |rest| ==> (head + rest)[i] == rest[i - |head|];
      head + rest
  }

  lemma SortedCons(e: Entry, es: seq<Entry>)
    ensures Sorted([e] + es) <==> Above(e.0, es) && Sorted(es)
  {
    var s := [e] + es;
    assert forall i :: 0 <= i < |es| ==> s[i + 1] == es[i];
    if Above(e.0, es) && Sorted(es) {
      forall i, j | 0 <= i < j < |s| ensures Less(s[i].0, s[j].0) {
        if i > 0 { assert s[i] == es[i - 1] && s[j] == es[j - 1]; }
        else { assert s[j] == es[j - 1]; }
      }
    }
    if Sorted(s) {
      forall i, j | 0 <= i < j < |es| ensures Less(es[i].0, es[j].0) {
        assert s[i + 1] == es[i] && s[j + 1] == es[j];
      }
      forall j | 0 <= j < |es| ensures Less(e.0, es[j].0) {
        assert s[0] == e && s[j + 1] == es[j];
      }
    }
  }

  lemma {:induction false} AboveNotIn(k: string, es: seq<Entry>)
    requires Above(k, es)
    ensures k !in Contents(es)
  {
    if es != [] {
      LessIrreflexive(k);
      AboveNotIn(k, es[1..]);
    }
  }

  /** Sorted entries hold one entry per stored key. */
  lemma {:induction false} SortedSize(es: seq<Entry>)
    requires Sorted(es)
    ensures |Contents(es)| == |es|
  {
    if es != [] {
      SortedCons(es[0], es[1..]);
      SortedSize(es[1..]);
      AboveNotIn(es[0].0, es[1..]);
    }
  }

  lemma {:induction false} PutAbove(es: seq<Entry>, k: string, v: Bytes, x: string)
    requires Above(x, es) && Less(x, k)
    ensures Above(x, Put(es, k, v))
  {
    if es != [] && es[0].0 != k && !Less(k, es[0].0) {
      PutAbove(es[1..], k, v, x);
    }
  }

  /** `put_cf` keeps the keys strictly ascending. */
  lemma {:induction false} PutSorted(es: seq<Entry>, k: string, v: Bytes)
    requires Sorted(es)
    ensures Sorted(Put(es, k, v))
  {
    if es == [] {
    } else if es[0].0 == k {
      SortedCons(es[0], es[1..]);
      SortedCons((k, v), es[1..]);
    } else if Less(k, es[0].0) {
      SortedCons(es[0], es[1..]);
      forall i | 0 <= i < |es| ensures Less(k, es[i].0) {
        if i > 0 { LessTransitive(k, es[0].0, es[i].0); }
      }
      SortedCons((k, v), es);
    } else {
      SortedCons(es[0], es[1..]);
      PutSorted(es[1..], k, v);
      LessTotal(k, es[0].0);
      PutAbove(es[1..], k, v, es[0].0);
      SortedCons(es[0], Put(es[1..], k, v));
    }
  }

  /** `put_cf` sets `k` to `v` and changes no other key. */
  lemma {:induction false} PutContents(es: seq<Entry>, k: string, v: Bytes)
    ensures Contents(Put(es, k, v)) == Contents(es)[k := v]
  {
    if es == [] {
    } else if es[0].0 == k {
      assert ([(k, v)] + es[1..])[1..] == es[1..];
    } else if Less(k, es[0].0) {
      assert ([(k, v)] + es)[1..] == es;
    } else {
      var rest := Put(es[1..], k, v);
      assert ([es[0]] + rest)[1..] == rest;
      PutContents(es[1..], k, v);
    }
  }

  /** Writing a key again replaces the earlier write: the later value wins,
      and writing the same value twice is the same as writing it once. */
  lemma {:induction false} PutPut(es: seq<Entry>, k: string, v: Bytes, w: Bytes)
    ensures Put(Put(es, k, v), k, w) == Put(es, k, w)
  {
    if es == [] {
    } else if es[0].0 == k {
      assert Put(es, k, v)[1..] == es[1..];
    } else if Less(k, es[0].0) {
      assert Put(es, k, v)[1..] == es;
    } else {
      assert Put(es, k, v)[1..] == Put(es[1..], k, v);
      PutPut(es[1..], k, v, w);
    }
  }

  /** A write grows the store by one entry exactly when the key was absent. */
  lemma PutSize(es: seq<Entry>, k: string, v: Bytes)
    requires Sorted(es)
    ensures |Put(es, k, v)| == if k in Contents(es) then |es| else |es| + 1
  {
    PutSorted(es, k, v);
    PutContents(es, k, v);
    SortedSize(es);
    SortedSize(Put(es, k, v));
  }

  lemma {:induction false} DeleteAbove(es: seq<Entry>, ks: seq<string>, x: string)
    requires Above(x, es)
    ensures Above(x, Delete(es, ks))
  {
    if es != [] {
      DeleteAbove(es[1..], ks, x);
    }
  }

  /** Deleting keeps the keys strictly ascending. */
  lemma {:induction false} DeleteSorted(es: seq<Entry>, ks: seq<string>)
    requires Sorted(es)
    ensures Sorted(Delete(es, ks))
  {
    if es != [] {
      SortedCons(es[0], es[1..]);
      DeleteSorted(es[1..], ks);
      if es[0].0 !in ks {
        DeleteAbove(es[1..], ks, es[0].0);
        SortedCons(es[0], Delete(es[1..], ks));
      }
    }
  }

  /** Deleting removes exactly the listed keys and changes no other entry. */
  lemma {:induction false} DeleteContents(es: seq<Entry>, ks: seq<string>)
    ensures Contents(Delete(es, ks)) == Contents(es) - (set k | k in ks)
  {
    if es != [] {
      var rest := Delete(es[1..], ks);
      DeleteContents(es[1..], ks);
      if es[0].0 !in ks {
        assert ([es[0]] + rest)[1..] == rest;
      } else {
        assert Delete(es, ks) == rest;
      }
    }
  }

  lemma {:induction false} DeleteConcat(a: seq<Entry>, b: seq<Entry>, ks: seq<string>)
    ensures Delete(a + b, ks) == Delete(a, ks) + Delete(b, ks)
  {
    if a != [] {
      assert (a + b)[1..] == a[1..] + b;
      DeleteConcat(a[1..], b, ks);
    } else {
      assert a + b == b;
    }
  }

  lemma {:induction false} DeleteNoneListed(es: seq<Entry>, ks: seq<string>)
    requires forall i :: 0 <= i < |es| ==> es[i].0 !in ks
    ensures Delete(es, ks) == es
  {
    if es != [] {
      DeleteNoneListed(es[1..], ks);
    }
  }

  lemma {:induction false} DeleteAllListed(es: seq<Entry>, ks: seq<string>)
    requires forall i :: 0 <= i < |es| ==> es[i].0 in ks
    ensures Delete(es, ks) == []
  {
    if es != [] {
      DeleteAllListed(es[1..], ks);
    }
  }

  /** Deleting again changes nothing. */
  lemma {:induction false} DeleteTwice(es: seq<Entry>, ks: seq<string>)
    ensures Delete(Delete(es, ks), ks) == Delete(es, ks)
  {
    if es != [] {
      var head := if es[0].0 in ks then [] else [es[0]];
      DeleteConcat(head, Delete(es[1..], ks), ks);
      DeleteNoneListed(head, ks);
      DeleteTwice(es[1..], ks);
    }
  }

  /** Deleting the keys of the first `n` entries of sorted entries leaves
      exactly the entries after them, untouched and in order. */
  lemma DeletePrefixKeys(es: seq<Entry>, n: nat)
    requires Sorted(es) && n <= |es|
    ensures Delete(es, KeysOf(es[..n])) == es[n..]
  {
    var ks := KeysOf(es[..n]);
    assert es == es[..n] + es[n..];
    DeleteConcat(es[..n], es[n..], ks);
    DeleteAllListed(es[..n], ks);
    LaterKeysNotListed(es, n);
    DeleteNoneListed(es[n..], ks);
  }

  lemma LaterKeysNotListed(es: seq<Entry>, n: nat)
    requires Sorted(es) && n <= |es|
    ensures forall j :: 0 <= j < |es[n..]| ==> es[n..][j].0 !in KeysOf(es[..n])
  {
    var ks := KeysOf(es[..n]);
    forall j | 0 <= j < |es[n..]| ensures es[n..][j].0 !in ks {
      forall i | 0 <= i < n ensures ks[i] != es[n + j].0 {
        assert ks[i] == es[i].0 && Less(es[i].0, es[n + j].0);
      }
    }
  }

  /** The engine: a fixed set of column families, each holding sorted entries. */
  class Db {
    /** The column families the store was opened with; none is added later. */
    const families: set<string>
    var data: map<string, seq<Entry>>

    ghost predicate Valid()
      reads this
    {
      && data.Keys == families
      && forall f :: f in data ==> Sorted(data[f])
    }

    /** Opens a store holding `contents`, one entry list per column family. */
    constructor Open(contents: map<string, seq<Entry>>)
      requires forall f :: f in contents ==> Sorted(contents[f])
      ensures Valid()
      ensures families == contents.Keys && data == contents
    {
      families := contents.Keys;
      data := contents;
    }
  }
}
