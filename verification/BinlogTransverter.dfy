/** The binlog item codec, and the filler item of an exact size. */
module BinlogTransverter {
  import opened Bytes
  import opened BinlogFormat
  import opened Wrappers

  const TypeFirst: nat := 1
  const BINLOG_ITEM_HEADER_SIZE: nat := 34
  const PADDING_BINLOG_PROTOCOL_SIZE: nat := 22
  const SPACE_STORE_PARAMETER_LENGTH: nat := 5

  const TWO_16: nat := 0x1_0000
  const TWO_32: nat := 0x1_0000_0000
  const TWO_64: nat := 0x1_0000_0000_0000_0000

  datatype BinlogItem = BinlogItem(
    execTime: nat, termId: nat, logicId: nat, filenum: nat, offset: nat, content: seq<Byte>)

  /** The fields are within the widths the header gives them. */
  predicate FieldsFit(item: BinlogItem) {
    && item.execTime < TWO_32 && item.termId < TWO_32 && item.filenum < TWO_32
    && item.logicId < TWO_64 && item.offset < TWO_64
  }

  /** The item header: type, time, term, logic id, file number, offset, content length. */
  function HeaderBytes(t: nat, item: BinlogItem, contentLength: nat): (s: seq<Byte>)
    ensures |s| == BINLOG_ITEM_HEADER_SIZE
  {
    Fixed(t, 2) + Fixed(item.execTime, 4) + Fixed(item.termId, 4) + Fixed(item.logicId, 8)
    + Fixed(item.filenum, 4) + Fixed(item.offset, 8) + Fixed(contentLength, 4)
  }

  /** The encoded item; the content length is kept in 32 bits. */
  function ItemBytes(t: nat, item: BinlogItem): (s: seq<Byte>)
    ensures |s| == BINLOG_ITEM_HEADER_SIZE + |item.content|
  {
    HeaderBytes(t, item, |item.content| % TWO_32) + item.content
  }

  /** Where each field stands in an encoded item. */
  lemma {:induction false} HeaderFields(t: nat, item: BinlogItem)
    ensures var s := ItemBytes(t, item);
            && s[0..2] == Fixed(t, 2) && s[2..6] == Fixed(item.execTime, 4) && s[6..10] == Fixed(item.termId, 4)
            && s[10..18] == Fixed(item.logicId, 8) && s[18..22] == Fixed(item.filenum, 4)
            && s[22..30] == Fixed(item.offset, 8) && s[30..34] == Fixed(|item.content| % TWO_32, 4)
            && s[34..] == item.content
  {
    var h := HeaderBytes(t, item, |item.content| % TWO_32);
    var s := ItemBytes(t, item);
    assert s[..34] == h;
    assert forall i, j | 0 <= i <= j <= 34 :: s[i..j] == s[..34][i..j];
  }

  function DecodedHeader(binlog: seq<Byte>): (item: BinlogItem)
    requires 30 <= |binlog|
  {
    BinlogItem(Value(binlog[2..6]), Value(binlog[6..10]), Value(binlog[10..18]),
               Value(binlog[18..22]), Value(binlog[22..30]), [])
  }

  /** The type can be read and, if it is the one asked for, n bytes can; what the slices of the source assert. */
  predicate Readable(t: nat, binlog: seq<Byte>, n: nat) {
    2 <= |binlog| && (Value(binlog[0..2]) == t ==> n <= |binlog|)
  }

  /** What an encoded item stands for; None for a wrong type or a wrong content length. */
  function Decoded(t: nat, binlog: seq<Byte>): (r: Option<BinlogItem>)
    requires Readable(t, binlog, BINLOG_ITEM_HEADER_SIZE)
  {
    if Value(binlog[0..2]) != t || Value(binlog[30..34]) != |binlog| - BINLOG_ITEM_HEADER_SIZE then None
    else Some(DecodedHeader(binlog).(content := binlog[34..]))
  }

  method BinlogEncode(t: nat, execTime: nat, termId: nat, logicId: nat, filenum: nat, offset: nat, content: seq<Byte>)
    returns (binlog: seq<Byte>)
    ensures binlog == ItemBytes(t, BinlogItem(execTime, termId, logicId, filenum, offset, content))
  {
    binlog := Fixed(t, 2);
    binlog := binlog + Fixed(execTime, 4);
    binlog := binlog + Fixed(termId, 4);
    binlog := binlog + Fixed(logicId, 8);
    binlog := binlog + Fixed(filenum, 4);
    binlog := binlog + Fixed(offset, 8);
    var contentLength := |content| % TWO_32;
    binlog := binlog + Fixed(contentLength, 4);
    binlog := binlog + content;
  }

  /** Takes a fixed-width integer off the front of a slice. */
  method GetFixed(slice: seq<Byte>, n: nat) returns (value: nat, rest: seq<Byte>)
    requires n <= |slice|
    ensures value == Value(slice[..n]) && rest == slice[n..]
  {
    value, rest := Value(slice[..n]), slice[n..];
  }

  method BinlogItemWithoutContentDecode(t: nat, binlog: seq<Byte>) returns (ok: bool, item: BinlogItem, rest: seq<Byte>)
    requires Readable(t, binlog, 30)
    ensures ok <==> Value(binlog[0..2]) == t
    ensures ok ==> item == DecodedHeader(binlog) && rest == binlog[30..]
  {
    hide Value;
    item := BinlogItem(0, 0, 0, 0, 0, []);
    assert binlog[..2] == binlog[0..2];
    var binlogType, slice := GetFixed(binlog, 2);
    rest := slice;
    if binlogType != t {
      return false, item, rest;
    }
    var time, term, logic, num, off;
    time, slice := GetFixed(slice, 4);
    term, slice := GetFixed(slice, 4);
    logic, slice := GetFixed(slice, 8);
    num, slice := GetFixed(slice, 4);
    off, slice := GetFixed(slice, 8);
    assert slice == binlog[30..];
    assert binlog[2..][..4] == binlog[2..6];
    assert binlog[6..][..4] == binlog[6..10];
    assert binlog[10..][..8] == binlog[10..18];
    assert binlog[18..][..4] == binlog[18..22];
    assert binlog[22..][..8] == binlog[22..30];
    return true, BinlogItem(time, term, logic, num, off, []), slice;
  }

  method BinlogDecode(t: nat, binlog: seq<Byte>) returns (ok: bool, item: BinlogItem)
    requires Readable(t, binlog, BINLOG_ITEM_HEADER_SIZE)
    ensures ok <==> Decoded(t, binlog).Some?
    ensures ok ==> Decoded(t, binlog) == Some(item)
  {
    var slice;
    ok, item, slice := BinlogItemWithoutContentDecode(t, binlog);
    if !ok {
      return;
    }
    var contentLength;
    contentLength, slice := GetFixed(slice, 4);
    assert binlog[30..][..4] == binlog[30..34] && slice == binlog[34..];
    if |slice| == contentLength {
      item := item.(content := slice);
    } else {
      ok := false;
    }
  }

  /** Every field of the header is read back, whatever content follows. */
  lemma {:induction false} HeaderReadsBack(t: nat, item: BinlogItem, contentLength: nat, rest: seq<Byte>)
    requires t < TWO_16 && contentLength < TWO_32 && FieldsFit(item)
    ensures var s := HeaderBytes(t, item, contentLength) + rest;
            && DecodedHeader(s) == item.(content := [])
            && Value(s[0..2]) == t && Value(s[30..34]) == contentLength && s[34..] == rest
  {
    var s := HeaderBytes(t, item, contentLength) + rest;
    assert s[0..2] == Fixed(t, 2);
    assert s[2..6] == Fixed(item.execTime, 4);
    assert s[6..10] == Fixed(item.termId, 4);
    assert s[10..18] == Fixed(item.logicId, 8);
    assert s[18..22] == Fixed(item.filenum, 4);
    assert s[22..30] == Fixed(item.offset, 8);
    assert s[30..34] == Fixed(contentLength, 4);
    assert Pow256(2) == TWO_16 && Pow256(4) == TWO_32 && Pow256(8) == TWO_64 by {
      assert Pow256(2) == 256 * Pow256(1) && Pow256(4) == 256 * (256 * Pow256(2));
      assert Pow256(8) == 256 * (256 * Pow256(6)) && Pow256(6) == 256 * (256 * Pow256(4));
    }
    FixedValue(t, 2);
    FixedValue(item.execTime, 4);
    FixedValue(item.termId, 4);
    FixedValue(item.logicId, 8);
    FixedValue(item.filenum, 4);
    FixedValue(item.offset, 8);
    FixedValue(contentLength, 4);
  }

  /**
   Decoding inverts encoding exactly when the content length fits in 32 bits; a longer content and
   a different type are refused.
   */
  lemma {:induction false} DecodeInvertsEncode(t: nat, t': nat, item: BinlogItem)
    requires t < TWO_16 && t' < TWO_16 && FieldsFit(item)
    ensures Decoded(t', ItemBytes(t, item))
         == if t' == t && |item.content| < TWO_32 then Some(item) else None
  {
    hide HeaderBytes, Value;
    HeaderReadsBack(t, item, |item.content| % TWO_32, item.content);
  }

  // The padding item

  /** Decimal digits in ASCII, most significant first. */
  function Digits(n: nat): (s: seq<Byte>)
    ensures |s| >= 1
  {
    if n < 10 then [48 + n] else Digits(n / 10) + [48 + n % 10]
  }

  function DecimalValue(s: seq<Byte>): int {
    if s == [] then 0 else 10 * DecimalValue(s[..|s| - 1]) + (s[|s| - 1] as int - 48)
  }

  function Repeat(b: Byte, n: nat): (s: seq<Byte>)
    ensures |s| == n
  {
    seq(n, _ => b)
  }

  const kNewLine: seq<Byte> := [13, 10]
  // "*2\r\n$7\r\npadding\r\n$"
  const kPaddingPrefix: seq<Byte> :=
    [42, 50, 13, 10, 36, 55, 13, 10, 112, 97, 100, 100, 105, 110, 103, 13, 10, 36]

  /** The filler command: the length of the second argument is written in five digits. */
  function PaddingContent(n: nat): (s: seq<Byte>)
    requires |Digits(n)| <= SPACE_STORE_PARAMETER_LENGTH
    ensures |s| == PADDING_BINLOG_PROTOCOL_SIZE + SPACE_STORE_PARAMETER_LENGTH + n
  {
    kPaddingPrefix + Repeat(48, SPACE_STORE_PARAMETER_LENGTH - |Digits(n)|) + Digits(n) + kNewLine
    + Repeat(42, n) + kNewLine
  }

  lemma {:induction false} DigitsValue(n: nat)
    ensures DecimalValue(Digits(n)) == n
  {
    if n >= 10 {
      DigitsValue(n / 10);
      assert Digits(n)[..|Digits(n)| - 1] == Digits(n / 10);
    }
  }

  /** Below 100000 five digits are enough. */
  lemma {:induction false} DigitsShort(n: nat)
    requires n < 100000
    ensures |Digits(n)| <= SPACE_STORE_PARAMETER_LENGTH
  {
    assert n / 10000 < 10;
    assert |Digits(n / 10000)| == 1;
    assert n / 1000 / 10 == n / 10000 && |Digits(n / 1000)| <= 2;
    assert n / 100 / 10 == n / 1000 && |Digits(n / 100)| <= 3;
    assert n / 10 / 10 == n / 100 && |Digits(n / 10)| <= 4;
  }

  /** Leading zeros do not change a decimal number. */
  lemma {:induction false} LeadingZeros(k: nat, s: seq<Byte>)
    ensures DecimalValue(Repeat(48, k) + s) == DecimalValue(s)
    decreases k + |s|
  {
    var z := Repeat(48, k) + s;
    if s != [] {
      LeadingZeros(k, s[..|s| - 1]);
      assert z[..|z| - 1] == Repeat(48, k) + s[..|s| - 1];
    } else if k > 0 {
      LeadingZeros(k - 1, s);
      assert z[..|z| - 1] == Repeat(48, k - 1) + s;
      assert z[|z| - 1] == 48;
    }
  }

  /** The five-digit field of the filler command holds the length of its filler argument. */
  lemma {:induction false} PaddingContentParses(n: nat)
    requires n < 100000
    ensures |Digits(n)| <= SPACE_STORE_PARAMETER_LENGTH
    ensures var c := PaddingContent(n);
            && c[..18] == kPaddingPrefix
            && DecimalValue(c[18..23]) == n
            && c[23..25] == kNewLine && c[25 + n..] == kNewLine
            && c[25..25 + n] == Repeat(42, n)
  {
    DigitsShort(n);
    DigitsValue(n);
    var z := SPACE_STORE_PARAMETER_LENGTH - |Digits(n)|;
    LeadingZeros(z, Digits(n));
    var c := PaddingContent(n);
    assert c[18..23] == Repeat(48, z) + Digits(n);
    assert c[25..25 + n] == Repeat(42, n);
    assert c[23..25] == kNewLine;
  }

  /** A filler item of exactly `size` bytes; the two asserts of the source are the precondition. */
  method ConstructPaddingBinlog(t: nat, size: nat) returns (binlog: seq<Byte>)
    requires size <= kBlockSize - kHeaderSize
    requires BINLOG_ITEM_HEADER_SIZE + PADDING_BINLOG_PROTOCOL_SIZE + SPACE_STORE_PARAMETER_LENGTH <= size
    requires t < TWO_16
    ensures |binlog| == size
    ensures |Digits(size - 61)| <= SPACE_STORE_PARAMETER_LENGTH
    ensures Decoded(t, binlog) == Some(BinlogItem(0, 0, 0, 0, 0, PaddingContent(size - 61)))
  {
    binlog := Fixed(t, 2);
    binlog := binlog + Fixed(0, 4);
    binlog := binlog + Fixed(0, 4);
    binlog := binlog + Fixed(0, 8);
    binlog := binlog + Fixed(0, 4);
    binlog := binlog + Fixed(0, 8);
    var contentLen := size - BINLOG_ITEM_HEADER_SIZE;
    var parameterLen := contentLen - PADDING_BINLOG_PROTOCOL_SIZE - SPACE_STORE_PARAMETER_LENGTH;
    var content := kPaddingPrefix;
    var parameterLenStr := Digits(parameterLen);
    DigitsShort(parameterLen);
    content := content + Repeat(48, SPACE_STORE_PARAMETER_LENGTH - |parameterLenStr|);
    content := content + parameterLenStr;
    content := content + kNewLine;
    content := content + Repeat(42, parameterLen) + kNewLine;
    binlog := binlog + Fixed(contentLen, 4);
    binlog := binlog + content;
    ghost var item := BinlogItem(0, 0, 0, 0, 0, content);
    assert binlog == ItemBytes(t, item);
    DecodeInvertsEncode(t, t, item);
  }
}
