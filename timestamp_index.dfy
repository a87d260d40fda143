/** The reverse-time key scheme of `generate_timestamp_index`: the key of a
    record taken at epoch second `ts` is `i64::MAX - ts` written with 20
    zero-padded digits, then '_', then the configuration id, so that newer
    records get smaller keys. */
module TimestampIndex {
  import opened Wrappers
  import opened Lex
  import opened Numerals

  /** `i64::MAX`. */
  const I64_MAX: nat := 9223372036854775807

  /** The width of the `{:020}` field and the position of the '_' after it. */
  const FIELD_WIDTH: nat := 20

  /** `generate_timestamp_index(config_id, timestamp)`; the timestamp is the
      epoch second `timestamp.timestamp()`. A negative one would overflow the
      `i64` subtraction, so it must lie in `[0, i64::MAX]`. */
  function GenerateTimestampIndex(configId: string, timestamp: int): (key: string)
    requires 0 <= timestamp <= I64_MAX
    ensures |key| == FIELD_WIDTH + 1 + |configId|
    ensures AllDigits(key[..FIELD_WIDTH]) && key[FIELD_WIDTH] == '_' && key[FIELD_WIDTH + 1..] == configId
  {
    MaxBelowPow10();
    DecimalUpperBound(I64_MAX - timestamp, 19);
    var field := FormatPadded(I64_MAX - timestamp, FIELD_WIDTH);
    assert (field + "_" + configId)[..FIELD_WIDTH] == field;
    field + "_" + configId
  }

  /** Splits a key back into its configuration id and timestamp; `None` for
      a string that is not of the form `generate_timestamp_index` produces. */
  function ParseTimestampIndex(key: string): Option<(string, int)>
  {
    if |key| <= FIELD_WIDTH || !AllDigits(key[..FIELD_WIDTH]) || key[FIELD_WIDTH] != '_' then None
    else
      var inverted := ParseDigits(key[..FIELD_WIDTH]);
      if inverted > I64_MAX then None else Some((key[FIELD_WIDTH + 1..], I64_MAX - inverted))
  }

  lemma MaxBelowPow10()
    ensures Pow10(18) <= I64_MAX < Pow10(19) < Pow10(FIELD_WIDTH)
  {
    assert Pow10(1) == 10;
    assert Pow10(2) == 100;
    assert Pow10(3) == 1000;
    assert Pow10(4) == 10000;
    assert Pow10(5) == 100000;
    assert Pow10(6) == 1000000;
    assert Pow10(7) == 10000000;
    assert Pow10(8) == 100000000;
    assert Pow10(9) == 1000000000;
    assert Pow10(10) == 10000000000;
    assert Pow10(11) == 100000000000;
    assert Pow10(12) == 1000000000000;
    assert Pow10(13) == 10000000000000;
    assert Pow10(14) == 100000000000000;
    assert Pow10(15) == 1000000000000000;
    assert Pow10(16) == 10000000000000000;
    assert Pow10(17) == 100000000000000000;
    assert Pow10(18) == 1000000000000000000;
    assert Pow10(19) == 10000000000000000000;
    assert Pow10(20) == 10 * Pow10(19);
  }

  /** The padded field: always 20 characters, always starting with '0'
      (`i64::MAX - ts` has at most 19 digits), the fixed-width digits of the
      inverted timestamp, which read back as that number. */
  lemma InvertedField(timestamp: int)
    requires 0 <= timestamp <= I64_MAX
    ensures var field := FormatPadded(I64_MAX - timestamp, FIELD_WIDTH);
      && |field| == FIELD_WIDTH
      && field[0] == '0'
      && field == Digits(I64_MAX - timestamp, FIELD_WIDTH)
      && ParseDigits(field) == I64_MAX - timestamp
  {
    var v := I64_MAX - timestamp;
    MaxBelowPow10();
    DecimalUpperBound(v, 19);
    PaddedIsDigits(v, FIELD_WIDTH);
    ParseDigitsOfDigits(v, FIELD_WIDTH);
  }

  /** Fixed width: the key is the field, '_' at position 20, then the id. */
  lemma IndexShape(configId: string, timestamp: int)
    requires 0 <= timestamp <= I64_MAX
    ensures var key := GenerateTimestampIndex(configId, timestamp);
      && |key| == FIELD_WIDTH + 1 + |configId|
      && key[..FIELD_WIDTH] == Digits(I64_MAX - timestamp, FIELD_WIDTH)
      && key[0] == '0'
      && key[FIELD_WIDTH] == '_'
      && key[FIELD_WIDTH + 1..] == configId
  {
    InvertedField(timestamp);
    var field := FormatPadded(I64_MAX - timestamp, FIELD_WIDTH);
    var key := GenerateTimestampIndex(configId, timestamp);
    assert key == field + ("_" + configId);
    assert key[..FIELD_WIDTH] == field;
  }

  /** Recoverability: the key gives back the id and the timestamp. */
  lemma IndexRoundTrip(configId: string, timestamp: int)
    requires 0 <= timestamp <= I64_MAX
    ensures ParseTimestampIndex(GenerateTimestampIndex(configId, timestamp)) == Some((configId, timestamp))
  {
    var key, inverted := GenerateTimestampIndex(configId, timestamp), I64_MAX - timestamp;
    KeySplit(configId, timestamp);
    IndexShape(configId, timestamp);
    ParseDigitsOfDigits(inverted, FIELD_WIDTH);
    assert ParseDigits(key[..FIELD_WIDTH]) == inverted;
  }

  /** Every string the parser accepts is the key of what it parses to. */
  lemma ParsedIsIndex(key: string)
    requires ParseTimestampIndex(key).Some?
    ensures var (configId, timestamp) := ParseTimestampIndex(key).value;
      && 0 <= timestamp <= I64_MAX
      && GenerateTimestampIndex(configId, timestamp) == key
  {
    var field := key[..FIELD_WIDTH];
    var (configId, timestamp) := ParseTimestampIndex(key).value;
    DigitsOfParseDigits(field);
    InvertedField(timestamp);
    assert key == field + ("_" + configId);
  }

  /** Distinct (id, timestamp) pairs give distinct keys. */
  lemma IndexInjective(a: string, t1: int, b: string, t2: int)
    requires 0 <= t1 <= I64_MAX && 0 <= t2 <= I64_MAX
    ensures GenerateTimestampIndex(a, t1) == GenerateTimestampIndex(b, t2) <==> a == b && t1 == t2
  {
    IndexRoundTrip(a, t1);
    IndexRoundTrip(b, t2);
  }

  /** A key as its fixed-width field followed by the rest. */
  lemma KeySplit(configId: string, timestamp: int)
    requires 0 <= timestamp <= I64_MAX
    ensures I64_MAX - timestamp < Pow10(FIELD_WIDTH)
    ensures GenerateTimestampIndex(configId, timestamp) == Digits(I64_MAX - timestamp, FIELD_WIDTH) + ("_" + configId)
  {
    MaxBelowPow10();
    InvertedField(timestamp);
  }

  /** Inversion: a newer timestamp gives a smaller key, whatever the ids. */
  lemma IndexNewerFirst(a: string, t1: int, b: string, t2: int)
    requires 0 <= t1 < t2 <= I64_MAX
    ensures Less(GenerateTimestampIndex(a, t2), GenerateTimestampIndex(b, t1))
  {
    var newer, older := I64_MAX - t2, I64_MAX - t1;
    KeySplit(a, t2);
    KeySplit(b, t1);
    DigitsOrder(newer, older, FIELD_WIDTH);
    LessAppend(Digits(newer, FIELD_WIDTH), Digits(older, FIELD_WIDTH), "_" + a, "_" + b);
  }

  /** At the same instant the ids decide the order, in both directions. */
  lemma IndexSameInstant(a: string, b: string, timestamp: int)
    requires 0 <= timestamp <= I64_MAX
    ensures Less(GenerateTimestampIndex(a, timestamp), GenerateTimestampIndex(b, timestamp)) <==> Less(a, b)
  {
    var p := FormatPadded(I64_MAX - timestamp, FIELD_WIDTH) + "_";
    assert GenerateTimestampIndex(a, timestamp) == p + a;
    assert GenerateTimestampIndex(b, timestamp) == p + b;
    LessCommonPrefix(p, a, b);
  }

  /** Keys of this scheme in ascending order have non-increasing timestamps. */
  lemma IndexOrderIsNewestFirst(k1: string, k2: string)
    requires ParseTimestampIndex(k1).Some? && ParseTimestampIndex(k2).Some?
    requires Less(k1, k2)
    ensures ParseTimestampIndex(k1).value.1 >= ParseTimestampIndex(k2).value.1
  {
    var (a, t1) := ParseTimestampIndex(k1).value;
    var (b, t2) := ParseTimestampIndex(k2).value;
    ParsedIsIndex(k1);
    ParsedIsIndex(k2);
    if t1 < t2 {
      IndexNewerFirst(b, t1, a, t2);
      LessAsymmetric(k1, k2);
    }
  }
}
