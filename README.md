# Typed column families over a sorted key-value store

This project models the storage core of a small Rust crate built on RocksDB.
It covers two pieces:

- `ColumnFamily<T>` gives a typed view of one column family. Records of a type
  `T: Keyable` are stored under `T::key()` as their JSON bytes. The view can
  read all records, read one, delete one, insert or overwrite one, count the
  records, trim the family down to a size, and select records whose keys fall
  between two time-derived bounds.
- `generate_timestamp_index` builds keys of the form
  `"{i64::MAX - seconds:020}_{config_id}"`. The point of the format is that
  newer records get smaller keys.

The model has these parts:

- `Lex` is Rust's `String` order: lexicographic by character, with a proper
  prefix smaller than the string it starts.
- `Numerals` models `to_string` and `{:0w}` for non-negative integers, the
  fixed-width digit strings they produce, and how those strings sort.
- `TimestampIndex` models the key format. It adds a parser, used only to
  state what a key means.
- `SortedStore` is the engine. Each column family is a strictly key-sorted
  sequence of (key, bytes) entries, which is also the order a scan from the
  start visits them in. The class `Db` holds the fixed set of families and
  their entries.
- `ColumnFamilies` is `ColumnFamily<T>` as a class over a `Db`. Every method
  is proved against a function or quantity of the family's entries, and
  lemmas state what those mean:
  - `GetAll` against `DecodeAll`;
  - `Get` against `Fetch`;
  - `Set` against `Put`;
  - `Del` against `Delete`;
  - `CountAll` against the number of entries;
  - `KeepSize` against `Retain`;
  - `FilterByTimeIndex` against `DecodeAll` of `SelectRange`.
- `CrudScenario` replays the sequence of calls in `test_crud_operations`
  using only the method contracts.

Errors are modelled as a `Result`:

- `StorageUnavailable`: the column family handle is missing, meaning the
  store was not opened with that family.
- `EncodeFailure`: serialization failed. `encode` is a partial function
  parameter.
- `DecodeFailure`: deserialization failed. `decode` is a partial function
  parameter.

`count_all` counts entries without decoding their values, so an undecodable
value is still counted and raises no error (`CountAll`).

## Where the code and its documented intent differ

The model follows the code in each of these cases:

- **`keep_size` deletes the newest records, not the oldest.** It deletes the
  keys that come first in RocksDB's byte order. With keys made by
  `generate_timestamp_index`, a newer second gives a smaller key (see
  `IndexNewerFirst` and `RetentionOnTimeIndexKeys`). Its doc comment says it
  removes "the earliest" data, which is true in index order but means the
  most recent records in time.
  - Example: three records at seconds 100, 200 and 300, then `keep_size(1)`.
    The record of second 100 is kept (`ThreeRecordScenario`).
- **`filter_by_time_index` bounds do not match generated keys.** Its bounds
  are the plain, unpadded `to_string` of `i64::MAX - t`, with no `_id`
  suffix. Generated keys are zero-padded to 20 digits, so they start with
  `'0'`, while a bound starts with `'0'` only for `t = i64::MAX`.
  - Consequence: a generated key lies between the bounds exactly when
    `end == i64::MAX` and `start < i64::MAX`, whatever the key's own time
    (`TimeIndexKeysVersusBounds`).
  - So `filter_by_time_index(150, 300)` selects none of the three records
    above.
  - Take a key that is the `to_string` of `i64::MAX - t`. The filter selects
    it exactly when `start <= t <= end`, provided the key and both bounds have
    the same number of digits (`DecimalsInInterval`).
    - For example, all three have 19 digits when `t`, `start` and `end` are
      at most `i64::MAX - 10^18` (`BoundsSelectTimeRangeOfDecimalKeys`).
    - Numerals of different lengths do not compare as numbers: an 18-digit
      lower bound sorts above a 19-digit key.

## Model

| member | source | states |
|---|---|---|
| ColumnFamilies.ColumnFamily.constructor | src/column_family.rs:41-49 | The view holds only the store, the family name, the key function and the codec; it holds no data of its own. |
| ColumnFamilies.ColumnFamily.GetAll | src/column_family.rs:59-80 | The result is StorageUnavailable without the handle. Otherwise it is the decoding of every entry in scan order, as DecodeAll gives it; a single undecodable value fails the whole call. |
| ColumnFamilies.DecodeAll | src/column_family.rs:68-79 | The result is Ok exactly when every value decodes. Ok holds one record per entry, in order, each the decoding of its entry. Any failure is DecodeFailure. |
| ColumnFamilies.ColumnFamily.Get | src/column_family.rs:94-114 | The result is StorageUnavailable without the handle. Otherwise it is Fetch of the family's entries. |
| ColumnFamilies.Fetch | src/column_family.rs:103-113 | The result is Ok(None) exactly when the key is absent. Ok(Some(x)) means x is the decoding of the stored bytes. An error is DecodeFailure and happens only when the stored bytes do not decode. |
| ColumnFamilies.ColumnFamily.Del | src/column_family.rs:126-139 | Without the handle, the result is StorageUnavailable and the store is unchanged. Otherwise the result is Ok, even for an absent key; only this family changes; its map loses exactly that key; its entries stay sorted. |
| ColumnFamilies.DelThenGet | src/column_family.rs:135-138 | After a delete, get finds nothing under that key, every other key reads as before, and deleting again changes nothing. |
| ColumnFamilies.ColumnFamily.Set | src/column_family.rs:154-170 | The handle failure is checked first, then the encode failure; neither changes the store. On success only this family changes: its map gains or overwrites item.key() with the encoded bytes and keeps every other key, and its entries stay sorted. |
| ColumnFamilies.SetThenGet | src/column_family.rs:163-169 | After a set, get of the record's key returns the record, given that the codec returns it; every other key reads as before. |
| ColumnFamilies.SetOverwrites | src/column_family.rs:141-170 | Setting the same key twice equals setting it once to the later value. The family does not grow on the second set. |
| ColumnFamilies.ColumnFamily.CountAll | src/column_family.rs:179-199 | The result is StorageUnavailable without the handle. Otherwise it is the number of entries, which equals the number of distinct stored keys; values are not decoded. |
| ColumnFamilies.ColumnFamily.KeepSize | src/column_family.rs:213-251 | Without the handle, the result is StorageUnavailable and nothing changes. Otherwise only this family changes, becoming Retain of its old entries, and its entries stay sorted. |
| ColumnFamilies.Retain | src/column_family.rs:213-248 | What keep_size leaves: all entries when there are at most size of them, otherwise exactly the last size entries in key order. |
| ColumnFamilies.Evicted | src/column_family.rs:231-241 | keys_to_delete: one key for each entry beyond what Retain keeps, namely the keys of the first entries in scan order. |
| ColumnFamilies.RetentionKeepsLargestKeys | src/column_family.rs:228-248 | With at most size entries, trimming is a no-op. With more, it deletes count - size keys and keeps size entries. The result equals the batch delete of the evicted keys and stays sorted. Its map is the old one minus the evicted keys. Every evicted key is smaller than every kept key. |
| ColumnFamilies.RetentionOnTimeIndexKeys | src/column_family.rs:201-241 | On keys in the timestamp index format, every evicted record carries a timestamp no earlier than every kept record's. |
| ColumnFamilies.ColumnFamily.FilterByTimeIndex | src/column_family.rs:267-297 | The result is StorageUnavailable without the handle. Otherwise it is the decoding of the entries whose key lies between the two bound strings, in scan order. |
| ColumnFamilies.TimeIndexBounds | src/column_family.rs:276-278 | The bounds are (start_key, end_key). Each is a digit string; start_key reads as i64::MAX - end and end_key as i64::MAX - start. Each is unpadded: it starts with '0' only when its time is i64::MAX. |
| ColumnFamilies.InKeyRange | src/column_family.rs:290 | key_str >= start_key && key_str <= end_key: the key equals or follows the lower bound, and equals or precedes the upper bound. |
| ColumnFamilies.SelectRange | src/column_family.rs:285-294 | An entry is selected exactly when it is in the family and its key k has start_key <= k <= end_key. The selection is no longer than the family. |
| ColumnFamilies.SelectRangeSorted | src/column_family.rs:280-294 | The selected entries keep the scan's ascending key order. |
| ColumnFamilies.BoundsSelectTimeRangeOfDecimalKeys | src/column_family.rs:276-278 | Let t, start and end all be at most i64::MAX - 10^18, so that the key (the to_string of i64::MAX - t) and both bounds are 19-digit numerals. Then the key lies between the bounds of (start, end) exactly when start <= t <= end. |
| ColumnFamilies.DecimalsInInterval | src/column_family.rs:276-290 | For numbers that all have the same digit count, a to_string lies between two others exactly when its number lies between theirs. |
| ColumnFamilies.TimeIndexKeysVersusBounds | src/column_family.rs:276-290 | A key made by generate_timestamp_index lies between the bounds exactly when end == i64::MAX and start < i64::MAX. |
| ColumnFamilies.ThreeRecordScenario | src/column_family.rs:228-290 | Take records at seconds 300, 200 and 100. Their keys sort newest first. Trimming to one keeps the record of second 100. The filter for (150, 300) selects none of them. |
| TimestampIndex.GenerateTimestampIndex | src/utils.rs:1-8 | The key is i64::MAX - timestamp zero-padded to 20 digits, then '_', then config_id; the timestamp must be in 0..=i64::MAX. Its length is 21 plus the id's. The first 20 characters are digits, position 20 is '_', and the id follows unchanged. |
| TimestampIndex.InvertedField | src/utils.rs:5-7 | The number field has exactly 20 characters. It starts with '0', equals the 20-digit form of i64::MAX - t, and reads back as that number. |
| TimestampIndex.IndexShape | src/utils.rs:7 | A key is the 20-digit field, then '_', then the config id. Its length is 21 plus the id's length. |
| TimestampIndex.IndexRoundTrip | src/utils.rs:5-7 | Parsing a generated key gives back the config id and the timestamp. |
| TimestampIndex.ParsedIsIndex | src/utils.rs:7 | Every key the parser accepts is the generated key of what it parses to. |
| TimestampIndex.IndexInjective | src/utils.rs:7 | Two generated keys are equal exactly when both the ids and the timestamps are equal. |
| TimestampIndex.IndexNewerFirst | src/utils.rs:6-7 | A later timestamp gives a smaller key, whatever the ids. |
| TimestampIndex.IndexSameInstant | src/utils.rs:7 | At the same timestamp, keys compare exactly as their config ids do. |
| TimestampIndex.IndexOrderIsNewestFirst | src/utils.rs:6-7 | Of two keys in the format, the smaller one carries a timestamp no earlier than the larger one's. |
| TimestampIndex.MaxBelowPow10 | src/utils.rs:5 | i64::MAX has 19 digits, so it fits the 20-character field. |
| Numerals.PaddedIsDigits | src/utils.rs:7 | Zero padding to a width the number fits in gives its fixed-width digits. |
| Numerals.DigitsOrder | src/utils.rs:7 | For numbers below 10^w, fixed-width digit strings sort as the numbers do. |
| Numerals.DigitsLessEq | src/column_family.rs:290 | For a common width, <= on digit strings holds exactly when <= holds on their numbers. |
| Numerals.ParseDigitsOfDigits | src/utils.rs:7 | Reading the fixed-width digits of n gives back n. |
| Numerals.DigitsOfParseDigits | src/utils.rs:7 | A digit string is the fixed-width form of its own value, and that value is below 10^length. |
| Numerals.Decimal | src/column_family.rs:277-278 | to_string of a non-negative number: at least one character, all of them digits. |
| Numerals.DecimalValue | src/column_family.rs:277-278 | The digits of to_string read back as the number. |
| Numerals.DecimalLeadsWithZero | src/column_family.rs:277-278 | to_string starts with '0' exactly for 0. |
| Numerals.FormatPadded | src/utils.rs:7 | `{:0w}` of a non-negative number: its to_string, padded on the left with '0' up to w characters. A longer numeral is kept whole. What this means is stated by PaddedIsDigits. |
| Numerals.DecimalLeadingDigit | src/column_family.rs:277-278 | The to_string of a positive number never starts with '0'. |
| Numerals.DecimalIsDigits | src/column_family.rs:277-278 | The to_string of a k-digit number is its k-digit fixed-width form. |
| Numerals.DecimalUpperBound | src/column_family.rs:277-278 | A number below 10^k has at most k digits. |
| Numerals.DecimalLowerBound | src/column_family.rs:277-278 | A number at least 10^k has more than k digits. |
| Lex.LessIrreflexive | src/column_family.rs:290 | No string is less than itself. |
| Lex.LessAsymmetric | src/column_family.rs:290 | The order is asymmetric. |
| Lex.LessTransitive | src/column_family.rs:290 | The order is transitive. |
| Lex.LessTotal | src/column_family.rs:290 | Any two strings are equal or one is less than the other. |
| Lex.Less | src/column_family.rs:290 | Rust's String `<`, character by character, with a proper prefix first. It is strict: it never holds between equal strings. |
| Lex.LessEq | src/column_family.rs:290 | Rust's String `<=` (`!(b < a)`) holds exactly when a == b or a < b. |
| Lex.LessCommonPrefix | src/utils.rs:7 | A common prefix does not decide a comparison. |
| Lex.LessAppend | src/utils.rs:7 | For two strings of one length, what follows them does not change their order. |
| Lex.LessProperPrefix | src/column_family.rs:290 | A proper prefix is smaller. |
| SortedStore.Lookup | src/column_family.rs:103-106 | Point read: the bytes stored under the key, or None exactly when the key is absent. |
| SortedStore.KeysOf | src/column_family.rs:234-237 | The collected keys, one per entry, in scan order. |
| SortedStore.Put | src/column_family.rs:166-168 | put_cf: the family grows by at most one entry, and a point read of the key then gives the written value. |
| SortedStore.Delete | src/column_family.rs:243-248 | delete_cf, and a WriteBatch of deletes: the family never grows, and no listed key remains. |
| SortedStore.PutContents | src/column_family.rs:166-168 | A write sets the key and leaves every other key as it was. |
| SortedStore.PutSorted | src/column_family.rs:166-168 | A write keeps the keys strictly ascending. |
| SortedStore.PutPut | src/column_family.rs:166-168 | A second write to a key replaces the first. |
| SortedStore.PutSize | src/column_family.rs:141-168 | A write adds one entry exactly when the key was absent. |
| SortedStore.DeleteContents | src/column_family.rs:243-248 | Deleting removes exactly the listed keys and changes nothing else. |
| SortedStore.DeleteSorted | src/column_family.rs:243-248 | Deleting keeps the keys strictly ascending. |
| SortedStore.DeleteTwice | src/column_family.rs:135-138 | Deleting is idempotent. |
| SortedStore.DeletePrefixKeys | src/column_family.rs:231-248 | In sorted entries, deleting the keys of the first n entries leaves exactly the remaining entries, in order. |
| SortedStore.SortedSize | src/column_family.rs:188-198 | Sorted entries hold one entry per distinct key. |
| SortedStore.SortedCons | src/column_family.rs:229 | A list is sorted exactly when its head is below every later key and its tail is sorted. |
| SortedStore.DeleteConcat | src/column_family.rs:243-248 | A delete of a concatenation is the concatenation of the deletes. |
| SortedStore.AboveNotIn | src/column_family.rs:229 | A key below every stored key is not stored. |
| ColumnFamilies.LeadingKeys | src/column_family.rs:229-241 | The keys of the first count - size entries, in scan order; the scan stops at the first entry past them. |
| ColumnFamilies.ScanRange | src/column_family.rs:280-296 | The scan returns exactly the records of the in-range entries, decoded in order, or DecodeFailure when one of them does not decode. |
| TimestampIndex.KeySplit | src/utils.rs:5-7 | A key is the 20-digit form of i64::MAX - t, followed by '_' and the id, and that number fits in 20 digits. |
| ColumnFamilies.ColumnFamily.HandleFound | src/column_family.rs:60-66 | The `cf_handle(T::column_family())` lookup succeeds exactly when the store was opened with that family. |
| ColumnFamilies.ColumnFamily.SetThenGetRecord | src/column_family.rs:154-170 | With a codec that gives back every record it encodes, once set(item) has stored its encoding, get of item.key() returns item itself. |
| SortedStore.Db.Open | src/db_context.rs:6-15 | The store opens with a fixed set of column families, each holding sorted entries. |
| CrudScenario.CrudOperations | src/column_family_test.rs:32-87 | The whole test from an empty "test_users" family. It ends with Bob's entry alone. The final reads are None for "001", exactly [Bob] for get_all, and None for "non_existent". |
| CrudScenario.CreateAndRead | src/column_family_test.rs:41-65 | Setting Alice and Bob into an empty family leaves exactly their two entries. The returned reads are: get of "001" after the first set gives Alice, get_all gives [Alice, Bob], and count_all gives 2. |
| CrudScenario.Update | src/column_family_test.rs:67-73 | Setting Alicia under "001" overwrites Alice in place, and the returned get of "001" gives Alicia. |
| CrudScenario.DeleteAlicia | src/column_family_test.rs:75-77 | Deleting "001" leaves only Bob's entry. |
| CrudScenario.ReadAfterDelete | src/column_family_test.rs:77-84 | With only Bob stored, get of "001" returns None, get_all returns exactly [Bob], and get of "non_existent" returns None. |

## Left out

- Process-wide singleton: `DbContext` and its `OnceLock` singleton, directory
  creation and opening RocksDB on disk are file-system and process-global
  state. The store is instead passed to `ColumnFamily` explicitly, and
  `Db.Open` stands for opening with a given set of column families.
- `lib.rs` only re-exports the modules and the `Keyable` trait, so there is
  nothing to model.
- JSON serialization via serde_json is not modelled. `serialize_to_bytes` and
  `deserialize_from_bytes` are partial functions given as parameters.
  `RoundTrips` states the property a real codec has, and
  `SetThenGetRecord` and the CRUD replay assume it.
- Engine I/O errors are not modelled: reading an entry during a scan,
  `get_cf`, `put_cf`, `delete_cf` and the batch write are total. RocksDB's
  internal failures and durability are outside the model.
- The `anyhow` context messages are not modelled: errors are the three
  `Error` kinds, without their text.
- `FilterByTimeIndex`: the `String::from_utf8` failure on a key is not
  modelled. Keys are already Dafny strings, so only valid UTF-8 keys are
  represented.
- `FilterByTimeIndex`: the time bounds must be at most `i64::MAX`. For larger
  `u64` arguments, `i64::MAX as u64 - t` underflows, which panics in debug
  builds and wraps in release builds. That behaviour is not modelled.
- `GenerateTimestampIndex`: the timestamp must be in `0..=i64::MAX`. For a
  negative `timestamp()`, the `i64` subtraction overflows. Time is whole
  seconds as an integer, and chrono's `DateTime` is not modelled.
- `ColumnFamily.KeepSize`: the second handle lookup after counting is not
  modelled. It cannot fail, because a store's column families are fixed once
  it is open.
- A batch delete applies all its deletes in one step. Concurrent writers
  between `count_all` and the batch in `keep_size` are not modelled, so the
  scan sees the same entries that were counted.
- `RetentionOnTimeIndexKeys` and `IndexOrderIsNewestFirst` are stated on keys
  that the parser accepts. Keys of other shapes sort by plain string order
  only.
