/** `ColumnFamily<T>`: a typed view of one column family of the store.
    Records of type `T` are stored under `T::key()`, encoded by
    `serialize_to_bytes`, and read back by `deserialize_from_bytes`. The
    view holds no data of its own; the store is passed in explicitly instead
    of being the process-wide `DbContext` instance. */
module ColumnFamilies {
  import opened Wrappers
  import opened Lex
  import opened Numerals
  import opened TimestampIndex
  import opened SortedStore

  datatype Error =
    | StorageUnavailable  // `cf_handle(T::column_family())` found no column family
    | EncodeFailure       // `serialize_to_bytes` failed
    | DecodeFailure       // `deserialize_from_bytes` failed

  datatype Result<+R> = Ok(value: R) | Err(error: Error)

  /** Decoding the value of every entry, in order; a single value that does
      not decode fails the whole, and no partial list is returned. */
  function DecodeAll<T>(es: seq<Entry>, decode: Bytes -> Option<T>): (r: Result<seq<T>>)
    ensures r.Ok? <==> forall i :: 0 <= i < |es| ==> decode(es[i].1).Some?
    ensures r.Ok? ==> |r.value| == |es| && forall i :: 0 <= i < |es| ==> decode(es[i].1) == Some(r.value[i])
    ensures r.Err? ==> r.error == DecodeFailure
  {
    if es == [] then Ok([])
    else
      var init := es[..|es| - 1];
      match DecodeAll(init, decode)
      case Err(e) => Err(e)
      case Ok(items) =>
        match decode(es[|es| - 1].1)
        case None => Err(DecodeFailure)
        case Some(x) => Ok(items + [x])
  }

  /** What `get(k)` answers for a column family holding `es`: nothing for a
      missing key (not an error), otherwise the decoded record. */
  function Fetch<T>(es: seq<Entry>, k: string, decode: Bytes -> Option<T>): (r: Result<Option<T>>)
    ensures r == Ok(None) <==> k !in Contents(es)
    ensures r.Ok? && r.value.Some? ==> k in Contents(es) && decode(Contents(es)[k]) == r.value
    ensures r.Err? ==> r.error == DecodeFailure && k in Contents(es) && decode(Contents(es)[k]).None?
  {
    match Lookup(es, k)
    case None => Ok(None)
    case Some(bytes) =>
      match decode(bytes)
      case None => Err(DecodeFailure)
      case Some(x) => Ok(Some(x))
  }

  /** What `keep_size(size)` leaves: everything when there are at most
      `size` entries, otherwise the last `size` entries in key order. */
  function Retain(es: seq<Entry>, size: nat): (r: seq<Entry>)
    ensures |r| == if |es| <= size then |es| else size
    ensures r == es[|es| - |r|..]
  {
    if |es| <= size then es else es[|es| - size..]
  }

  /** The keys `keep_size(size)` deletes: those of the first `count - size`
      entries in key order. */
  function Evicted(es: seq<Entry>, size: nat): (ks: seq<string>)
    ensures |ks| == |es| - |Retain(es, size)|
    ensures forall i :: 0 <= i < |ks| ==> ks[i] == es[i].0
  {
    if |es| <= size then [] else KeysOf(es[..|es| - size])
  }

  /** The two bound strings of `filter_by_time_index(start, end)`: the plain
      `to_string` of `i64::MAX - end` and of `i64::MAX - start`, in that
      order; unpadded and without any suffix. */
  function TimeIndexBounds(startTime: nat, endTime: nat): (r: (string, string))
    requires startTime <= I64_MAX && endTime <= I64_MAX
    ensures AllDigits(r.0) && ParseDigits(r.0) == I64_MAX - endTime
    ensures AllDigits(r.1) && ParseDigits(r.1) == I64_MAX - startTime
    ensures 1 <= |r.0| && (r.0[0] == '0' <==> endTime == I64_MAX)
    ensures 1 <= |r.1| && (r.1[0] == '0' <==> startTime == I64_MAX)
  {
    DecimalValue(I64_MAX - endTime);
    DecimalValue(I64_MAX - startTime);
    DecimalLeadsWithZero(I64_MAX - endTime);
    DecimalLeadsWithZero(I64_MAX - startTime);
    (Decimal(I64_MAX - endTime), Decimal(I64_MAX - startTime))
  }

  /** `key_str >= start_key && key_str <= end_key` on Rust strings. */
  predicate InKeyRange(k: string, lo: string, hi: string): (r: bool)
    ensures r <==> (lo == k || Less(lo, k)) && (k == hi || Less(k, hi))
  {
    LessEq(lo, k) && LessEq(k, hi)
  }

  /** The entries whose key lies in `[lo, hi]`, in scan order. */
  function SelectRange(es: seq<Entry>, lo: string, hi: string): (r: seq<Entry>)
    ensures |r| <= |es|
    ensures forall e :: e in r <==> e in es && InKeyRange(e.0, lo, hi)
  {
    if es == [] then []
    else
      var last := es[|es| - 1];
      assert es == es[..|es| - 1] + [last];
      SelectRange(es[..|es| - 1], lo, hi) + (if InKeyRange(last.0, lo, hi) then [last] else [])
  }

  lemma {:induction false} SelectRangeSorted(es: seq<Entry>, lo: string, hi: string)
    requires Sorted(es)
    ensures Sorted(SelectRange(es, lo, hi))
  {
    if es != [] {
      var init, last := es[..|es| - 1], es[|es| - 1];
      SelectRangeSorted(init, lo, hi);
      var s := SelectRange(init, lo, hi);
      if InKeyRange(last.0, lo, hi) {
        var r := s + [last];
        forall i, j | 0 <= i < j < |r| ensures Less(r[i].0, r[j].0) {
          if j < |s| {
            assert r[i] == s[i] && r[j] == s[j];
          } else {
            assert r[i] in init;
            var p :| 0 <= p < |init| && init[p] == r[i];
            assert es[p] == r[i];
          }
        }
      }
    }
  }

  /** After `set` stores `bytes` under `k`, `get(k)` gives back the record
      they decode to, and every other key reads as before. */
  lemma SetThenGet<T>(es: seq<Entry>, k: string, bytes: Bytes, item: T, decode: Bytes -> Option<T>, other: string)
    requires decode(bytes) == Some(item)
    ensures Fetch(Put(es, k, bytes), k, decode) == Ok(Some(item))
    ensures other != k ==> Fetch(Put(es, k, bytes), other, decode) == Fetch(es, other, decode)
  {
    PutContents(es, k, bytes);
  }

  /** A second `set` under the same key leaves the state of the second alone:
      one entry for the key, holding the later value, and as many entries as
      after the first. */
  lemma SetOverwrites(es: seq<Entry>, k: string, first: Bytes, second: Bytes)
    requires Sorted(es)
    ensures Put(Put(es, k, first), k, second) == Put(es, k, second)
    ensures Contents(Put(Put(es, k, first), k, second)) == Contents(es)[k := second]
    ensures |Put(Put(es, k, first), k, second)| == |Put(es, k, first)|
  {
    PutPut(es, k, first, second);
    PutContents(es, k, first);
    PutContents(es, k, second);
    PutSize(es, k, first);
    PutSize(es, k, second);
  }

  /** After `del(k)`, `get(k)` finds nothing (whether or not `k` was there),
      every other key reads as before, and deleting again changes nothing. */
  lemma DelThenGet<T>(es: seq<Entry>, k: string, decode: Bytes -> Option<T>, other: string)
    ensures Fetch(Delete(es, [k]), k, decode) == Ok(None)
    ensures other != k ==> Fetch(Delete(es, [k]), other, decode) == Fetch(es, other, decode)
    ensures Delete(Delete(es, [k]), [k]) == Delete(es, [k])
  {
    DeleteContents(es, [k]);
    assert (set x | x in [k]) == {k};
    DeleteTwice(es, [k]);
  }

  /** `keep_size(size)` on a column family with more than `size` entries
      deletes exactly the `count - size` smallest keys, keeps the other
      `size` entries untouched and in order, and every kept key is greater
      than every deleted one; with at most `size` entries nothing happens. */
  lemma RetentionKeepsLargestKeys(es: seq<Entry>, size: nat)
    requires Sorted(es)
    ensures |es| <= size ==> Retain(es, size) == es && Evicted(es, size) == []
    ensures |es| > size ==> |Retain(es, size)| == size && |Evicted(es, size)| == |es| - size
    ensures Retain(es, size) == Delete(es, Evicted(es, size))
    ensures Sorted(Retain(es, size))
    ensures Contents(Retain(es, size)) == Contents(es) - (set k | k in Evicted(es, size))
    ensures forall i, j :: 0 <= i < |Evicted(es, size)| && 0 <= j < |Retain(es, size)| ==>
              Less(Evicted(es, size)[i], Retain(es, size)[j].0)
  {
    RetainIsBatchDelete(es, size);
    DeleteSorted(es, Evicted(es, size));
    DeleteContents(es, Evicted(es, size));
    EvictedBelowRetained(es, size);
  }

  lemma RetainIsBatchDelete(es: seq<Entry>, size: nat)
    requires Sorted(es)
    ensures Retain(es, size) == Delete(es, Evicted(es, size))
  {
    var n := if |es| <= size then 0 else |es| - size;
    assert es[..0] == [];
    assert Evicted(es, size) == KeysOf(es[..n]);
    DeletePrefixKeys(es, n);
  }

  lemma EvictedBelowRetained(es: seq<Entry>, size: nat)
    requires Sorted(es)
    ensures forall i, j :: 0 <= i < |Evicted(es, size)| && 0 <= j < |Retain(es, size)| ==>
              Less(Evicted(es, size)[i], Retain(es, size)[j].0)
  {
    var ev, kept := Evicted(es, size), Retain(es, size);
    forall i, j | 0 <= i < |ev| && 0 <= j < |kept| ensures Less(ev[i], kept[j].0) {
      assert ev[i] == es[i].0 && kept[j] == es[|ev| + j];
    }
  }

  /** With keys made by `generate_timestamp_index`, smaller keys are newer,
      so `keep_size` deletes the newest records and keeps the oldest. */
  lemma RetentionOnTimeIndexKeys(es: seq<Entry>, size: nat)
    requires Sorted(es)
    requires forall i :: 0 <= i < |es| ==> ParseTimestampIndex(es[i].0).Some?
    ensures forall i, j :: 0 <= i < |es| - size && |es| - size <= j < |es| ==>
              ParseTimestampIndex(es[i].0).value.1 >= ParseTimestampIndex(es[j].0).value.1
  {
    forall i, j | 0 <= i < |es| - size && |es| - size <= j < |es|
      ensures ParseTimestampIndex(es[i].0).value.1 >= ParseTimestampIndex(es[j].0).value.1
    {
      IndexOrderIsNewestFirst(es[i].0, es[j].0);
    }
  }

  /** For keys shaped as the bounds are, `(i64::MAX - t).to_string()` with 19
      digits, the filter selects exactly `start <= t <= end` (so nothing
      when `start > end`). */
  lemma BoundsSelectTimeRangeOfDecimalKeys(t: nat, startTime: nat, endTime: nat)
    requires t <= I64_MAX - Pow10(18) && startTime <= I64_MAX - Pow10(18) && endTime <= I64_MAX - Pow10(18)
    ensures var (lo, hi) := TimeIndexBounds(startTime, endTime);
      InKeyRange(Decimal(I64_MAX - t), lo, hi) <==> startTime <= t <= endTime
  {
    MaxBelowPow10();
    var inv, invStart, invEnd := I64_MAX - t, I64_MAX - startTime, I64_MAX - endTime;
    var (lo, hi) := TimeIndexBounds(startTime, endTime);
    assert lo == Decimal(invEnd) && hi == Decimal(invStart);
    DecimalsInInterval(inv, invEnd, invStart, 19);
  }

  /** Among numbers of one digit count `k`, a `to_string` lies between two
      others exactly when its number lies between theirs. */
  lemma DecimalsInInterval(x: nat, lo: nat, hi: nat, k: nat)
    requires 1 <= k
    requires Pow10(k - 1) <= x < Pow10(k) && Pow10(k - 1) <= lo < Pow10(k) && Pow10(k - 1) <= hi < Pow10(k)
    ensures InKeyRange(Decimal(x), Decimal(lo), Decimal(hi)) <==> lo <= x <= hi
  {
    DecimalIsDigits(x, k);
    DecimalIsDigits(lo, k);
    DecimalIsDigits(hi, k);
    DigitsLessEq(lo, x, k);
    DigitsLessEq(x, hi, k);
  }

  lemma ZeroLedKeyBelowBound(key: string, bound: string)
    requires |key| > 1 && key[0] == '0'
    requires |bound| >= 1 && AllDigits(bound) && bound[0] != '0'
    ensures Less(key, bound) && !Less(bound, key)
  {
    LessAsymmetric(key, bound);
  }

  /** Keys made by `generate_timestamp_index` start with '0' and the bounds
      of `filter_by_time_index` start with '0' only for the time `i64::MAX`:
      such a key lies between the bounds exactly when `end` is `i64::MAX`
      and `start` is below it, whatever its own timestamp. */
  lemma TimeIndexKeysVersusBounds(configId: string, timestamp: int, startTime: nat, endTime: nat)
    requires 0 <= timestamp <= I64_MAX && startTime <= I64_MAX && endTime <= I64_MAX
    ensures var (lo, hi) := TimeIndexBounds(startTime, endTime);
      InKeyRange(GenerateTimestampIndex(configId, timestamp), lo, hi) <==> endTime == I64_MAX && startTime < I64_MAX
  {
    var key := GenerateTimestampIndex(configId, timestamp);
    var (lo, hi) := TimeIndexBounds(startTime, endTime);
    IndexShape(configId, timestamp);
    if endTime < I64_MAX {
      DecimalLeadingDigit(I64_MAX - endTime);
      ZeroLedKeyBelowBound(key, lo);
    } else {
      assert lo == "0" && key == lo + key[1..];
      LessProperPrefix(lo, key[1..]);
      LessAsymmetric(lo, key);
      if startTime < I64_MAX {
        DecimalLeadingDigit(I64_MAX - startTime);
        ZeroLedKeyBelowBound(key, hi);
      } else {
        assert hi == lo;
      }
    }
  }

  /** Three records indexed at seconds 100, 200 and 300: their keys sort
      newest first, `keep_size(1)` keeps only the record of second 100, and
      `filter_by_time_index(150, 300)` selects none of them. */
  lemma ThreeRecordScenario(configId: string, v100: Bytes, v200: Bytes, v300: Bytes)
    ensures var es := [(GenerateTimestampIndex(configId, 300), v300),
                       (GenerateTimestampIndex(configId, 200), v200),
                       (GenerateTimestampIndex(configId, 100), v100)];
      var (lo, hi) := TimeIndexBounds(150, 300);
      && Sorted(es)
      && Retain(es, 1) == [(GenerateTimestampIndex(configId, 100), v100)]
      && SelectRange(es, lo, hi) == []
  {
    var k100, k200, k300 := GenerateTimestampIndex(configId, 100), GenerateTimestampIndex(configId, 200), GenerateTimestampIndex(configId, 300);
    var es := [(k300, v300), (k200, v200), (k100, v100)];
    IndexNewerFirst(configId, 200, configId, 300);
    IndexNewerFirst(configId, 100, configId, 200);
    IndexNewerFirst(configId, 100, configId, 300);
    var (lo, hi) := TimeIndexBounds(150, 300);
    TimeIndexKeysVersusBounds(configId, 100, 150, 300);
    TimeIndexKeysVersusBounds(configId, 200, 150, 300);
    TimeIndexKeysVersusBounds(configId, 300, 150, 300);
    SelectRangeNone(es, lo, hi);
  }

  lemma {:induction false} SelectRangeNone(es: seq<Entry>, lo: string, hi: string)
    requires forall i :: 0 <= i < |es| ==> !InKeyRange(es[i].0, lo, hi)
    ensures SelectRange(es, lo, hi) == []
  {
    if es != [] {
      SelectRangeNone(es[..|es| - 1], lo, hi);
    }
  }

  /** The scan of `keep_size`: the keys of the first `n` entries, in scan
      order, stopping at the first entry past them. */
  method LeadingKeys(es: seq<Entry>, n: nat) returns (ks: seq<string>)
    requires n <= |es|
    ensures ks == KeysOf(es[..n])
  {
    ks := [];
    var i := 0;
    while i < |es|
      invariant 0 <= i <= n
      invariant ks == KeysOf(es[..i])
    {
      if i < n {
        assert KeysOf(es[..i + 1]) == KeysOf(es[..i]) + [es[i].0];
        ks := ks + [es[i].0];
        i := i + 1;
      } else {
        break;
      }
    }
  }

  /** The scan of `filter_by_time_index`: every entry whose key lies in
      `[lo, hi]` is decoded, in scan order; the first value that does not
      decode ends the scan with an error. */
  method ScanRange<T>(es: seq<Entry>, lo: string, hi: string, decode: Bytes -> Option<T>) returns (r: Result<seq<T>>)
    ensures r == DecodeAll(SelectRange(es, lo, hi), decode)
  {
    var items: seq<T> := [];
    ghost var picked: seq<Entry> := [];
    var i := 0;
    while i < |es|
      invariant 0 <= i <= |es|
      invariant picked == SelectRange(es[..i], lo, hi)
      invariant DecodeAll(picked, decode) == Ok(items)
    {
      assert es[..i + 1][..i] == es[..i];
      var (k, v) := es[i];
      if LessEq(lo, k) && LessEq(k, hi) {
        var item := decode(v);
        if item.None? {
          assert es[i] in SelectRange(es, lo, hi);
          return Err(DecodeFailure);
        }
        assert (picked + [es[i]])[..|picked|] == picked;
        picked := picked + [es[i]];
        items := items + [item.value];
      }
      i := i + 1;
    }
    assert es[..i] == es;
    return Ok(items);
  }

  /** The typed view `ColumnFamily<T>` over the store `db`. The four
      constants stand for what `T: Keyable` provides. */
  class ColumnFamily<T(!new)> {
    const db: Db
    /** `T::column_family()`. */
    const family: string
    /** `T::key`. */
    const key: T -> string
    /** `serialize_to_bytes`, which may fail. */
    const encode: T -> Option<Bytes>
    /** `deserialize_from_bytes`, which is partial. */
    const decode: Bytes -> Option<T>

    constructor (db: Db, family: string, key: T -> string, encode: T -> Option<Bytes>, decode: Bytes -> Option<T>)
      ensures this.db == db && this.family == family
      ensures this.key == key && this.encode == encode && this.decode == decode
    {
      this.db := db;
      this.family := family;
      this.key := key;
      this.encode := encode;
      this.decode := decode;
    }

    /** The codec gives back every record it encodes. */
    ghost predicate RoundTrips()
    {
      forall x :: encode(x).Some? ==> decode(encode(x).value) == Some(x)
    }

    /** With such a codec, once `set(item)` has stored its encoding, `get`
        of `item.key()` returns `item` itself. */
    lemma SetThenGetRecord(es: seq<Entry>, item: T)
      requires RoundTrips() && encode(item).Some?
      ensures Fetch(Put(es, key(item), encode(item).value), key(item), decode) == Ok(Some(item))
    {
      SetThenGet(es, key(item), encode(item).value, item, decode, key(item));
    }

    /** The column family handle lookup succeeds (the store was opened with it). */
    predicate HandleFound()
    {
      family in db.families
    }

    /** `get_all`: every record, in ascending key order. */
    method GetAll() returns (r: Result<seq<T>>)
      requires db.Valid()
      ensures r == if HandleFound() then DecodeAll(db.data[family], decode) else Err(StorageUnavailable)
    {
      if family !in db.families {
        return Err(StorageUnavailable);
      }
      var es := db.data[family];
      var items: seq<T> := [];
      var i := 0;
      while i < |es|
        invariant 0 <= i <= |es|
        invariant DecodeAll(es[..i], decode) == Ok(items)
      {
        assert es[..i + 1][..i] == es[..i];
        var item := decode(es[i].1);
        if item.None? {
          return Err(DecodeFailure);
        }
        items := items + [item.value];
        i := i + 1;
      }
      assert es[..i] == es;
      return Ok(items);
    }

    /** `get(key)`. */
    method Get(k: string) returns (r: Result<Option<T>>)
      requires db.Valid()
      ensures r == if HandleFound() then Fetch(db.data[family], k, decode) else Err(StorageUnavailable)
    {
      if family !in db.families {
        return Err(StorageUnavailable);
      }
      match Lookup(db.data[family], k)
      case None =>
        r := Ok(None);
      case Some(bytes) =>
        var item := decode(bytes);
        if item.None? {
          return Err(DecodeFailure);
        }
        r := Ok(Some(item.value));
    }

    /** `del(key)`: an unconditional delete; an absent key is no error. */
    method Del(k: string) returns (r: Result<()>)
      requires db.Valid()
      modifies db
      ensures db.Valid()
      ensures r == if HandleFound() then Ok(()) else Err(StorageUnavailable)
      ensures db.data == if HandleFound() then old(db.data)[family := Delete(old(db.data[family]), [k])] else old(db.data)
      ensures HandleFound() ==> Contents(db.data[family]) == Contents(old(db.data[family])) - {k}
    {
      if family !in db.families {
        return Err(StorageUnavailable);
      }
      var es := db.data[family];
      DeleteSorted(es, [k]);
      DeleteContents(es, [k]);
      assert (set x | x in [k]) == {k};
      db.data := db.data[family := Delete(es, [k])];
      return Ok(());
    }

    /** `set(item)`: stores `item` under `item.key()`, replacing any record
      already there. */
    method Set(item: T) returns (r: Result<()>)
      requires db.Valid()
      modifies db
      ensures db.Valid()
      ensures r == if !HandleFound() then Err(StorageUnavailable)
                   else if encode(item).None? then Err(EncodeFailure)
                   else Ok(())
      ensures db.data == if r.Ok? then old(db.data)[family := Put(old(db.data[family]), key(item), encode(item).value)]
                         else old(db.data)
      ensures r.Ok? ==> Contents(db.data[family]) == Contents(old(db.data[family]))[key(item) := encode(item).value]
    {
      if family !in db.families {
        return Err(StorageUnavailable);
      }
      var k := key(item);
      var value := encode(item);
      if value.None? {
        return Err(EncodeFailure);
      }
      var es := db.data[family];
      PutSorted(es, k, value.value);
      PutContents(es, k, value.value);
      db.data := db.data[family := Put(es, k, value.value)];
      return Ok(());
    }

    /** `count_all`: the number of entries, found by a scan that does not
      decode them. */
    method CountAll() returns (r: Result<nat>)
      requires db.Valid()
      ensures r == if HandleFound() then Ok(|db.data[family]|) else Err(StorageUnavailable)
      ensures r.Ok? ==> r.value == |Contents(db.data[family])|
    {
      if family !in db.families {
        return Err(StorageUnavailable);
      }
      var es := db.data[family];
      var count := 0;
      var i := 0;
      while i < |es|
        invariant 0 <= i <= |es|
        invariant count == i
      {
        count := count + 1;
        i := i + 1;
      }
      SortedSize(es);
      return Ok(count);
    }

    /** `keep_size(size)`: when there are more than `size` entries, deletes
      the first `count - size` of them in key order in one batch. */
    method KeepSize(size: nat) returns (r: Result<()>)
      requires db.Valid()
      modifies db
      ensures db.Valid()
      ensures r == if HandleFound() then Ok(()) else Err(StorageUnavailable)
      ensures db.data == if HandleFound() then old(db.data)[family := Retain(old(db.data[family]), size)]
                         else old(db.data)
    {
      var currentCount := CountAll();
      if currentCount.Err? {
        return Err(currentCount.error);
      }
      if currentCount.value <= size {
        return Ok(());
      }
      // The handle lookup repeated here cannot fail: the families are fixed.
      var es := db.data[family];
      // The source calls this number `items_to_keep`; it is the number to delete.
      var toDelete := currentCount.value - size;
      var keysToDelete := LeadingKeys(es, toDelete);
      DeletePrefixKeys(es, toDelete);
      DeleteSorted(es, keysToDelete);
      db.data := db.data[family := Delete(es, keysToDelete)];
      return Ok(());
    }

    /** `filter_by_time_index(start, end)`: the records whose raw key lies
      between the two bound strings, in key order. The `u64` subtractions
      underflow unless both times are at most `i64::MAX`. */
    method FilterByTimeIndex(startTime: nat, endTime: nat) returns (r: Result<seq<T>>)
      requires db.Valid()
      requires startTime <= I64_MAX && endTime <= I64_MAX
      ensures r == if HandleFound() then
                     var (lo, hi) := TimeIndexBounds(startTime, endTime);
                     DecodeAll(SelectRange(db.data[family], lo, hi), decode)
                   else Err(StorageUnavailable)
    {
      if family !in db.families {
        return Err(StorageUnavailable);
      }
      var startKey := Decimal(I64_MAX - endTime);
      var endKey := Decimal(I64_MAX - startTime);
      r := ScanRange(db.data[family], startKey, endKey, decode);
    }
  }
}
