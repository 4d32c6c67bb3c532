/**
 The physical format of a binlog file: records with an 8-byte header inside 64 KiB blocks.

 `Layout` is the writer's side: the bytes that encode one item from a given file offset.
 `ItemAt` is the reader's side: what must stand in a file for an item to occupy a range of it.
 `LayoutIsItem` connects the two.
 */
module BinlogFormat {
  import opened Bytes

  const kBlockSize: nat := 64 * 1024
  const kHeaderSize: nat := 1 + 3 + 4

  const kZeroType: Byte := 0
  const kFullType: Byte := 1
  const kFirstType: Byte := 2
  const kMiddleType: Byte := 3
  const kLastType: Byte := 4
  const kEof: Byte := 5
  const kBadRecord: Byte := 6
  const kOldRecord: Byte := 7

  /** The clock, seen as the time stamped on the record that starts at a file offset. */
  type Clock = nat -> nat

  /** The length field of a header: three bytes, least significant first. */
  function LengthField(a: Byte, b: Byte, c: Byte): (n: nat) {
    a + 256 * b + 65536 * c
  }

  /** Length in three bytes, time in four, type in one. */
  function Header(n: nat, now: nat, t: Byte): (h: seq<Byte>)
    ensures |h| == kHeaderSize && h[7] == t
  {
    Fixed(n, 3) + Fixed(now, 4) + [t]
  }

  lemma {:induction false} HeaderLength(n: nat, now: nat, t: Byte)
    requires n <= 0xffffff
    ensures var h := Header(n, now, t); LengthField(h[0], h[1], h[2]) == n
  {
    var s := Fixed(n, 3);
    var h := Header(n, now, t);
    assert Fixed(n, 3)[1..] == Fixed(n / 256, 2) && Fixed(n / 256, 2)[1..] == Fixed(n / 256 / 256, 1);
    assert h[0] == s[0] && h[1] == s[1] && h[2] == s[2];
    assert s[0] == n % 256 && s[1] == n / 256 % 256 && s[2] == n / 256 / 256 % 256;
  }

  /** Bytes from p to the end of its block. */
  function Space(p: nat): (n: nat)
    ensures 1 <= n <= kBlockSize
    ensures n <= kBlockSize && (p + n) % kBlockSize == 0
  {
    kBlockSize - p % kBlockSize
  }

  function BlockStart(p: nat): (s: nat)
    ensures s <= p < s + kBlockSize && s % kBlockSize == 0
  {
    p - p % kBlockSize
  }

  /** Where the record for an item at p goes: a trailer too short for a header is passed over. */
  function Align(p: nat): (q: nat)
    ensures p <= q < p + kHeaderSize && Space(q) >= kHeaderSize
    ensures q == p || (q % kBlockSize == 0 && BlockStart(q) == q)
  {
    if Space(p) < kHeaderSize then p + Space(p) else p
  }

  /** How much of n remaining bytes goes in the record at q. */
  function FragmentLength(q: nat, n: nat): (k: nat)
    requires Space(q) >= kHeaderSize
    ensures k <= n && k <= kBlockSize - kHeaderSize && kHeaderSize + k <= Space(q)
    ensures k < n ==> (q + kHeaderSize + k) % kBlockSize == 0
  {
    var avail := Space(q) - kHeaderSize;
    if n < avail then n else avail
  }

  function RecordType(begin: bool, end: bool): Byte {
    if begin && end then kFullType
    else if begin then kFirstType
    else if end then kLastType
    else kMiddleType
  }

  /** The trailer and the one physical record that start the encoding of `left` at p. */
  function Fragment(clock: Clock, p: nat, begin: bool, left: seq<Byte>): (s: seq<Byte>)
    ensures |s| == Align(p) - p + kHeaderSize + FragmentLength(Align(p), |left|)
  {
    var q := Align(p);
    var n := FragmentLength(q, |left|);
    Zeros(q - p) + Header(n, clock(q), RecordType(begin, n == |left|)) + left[..n]
  }

  /** A header byte by byte: the length, the time cut to 32 bits, and the type. */
  lemma {:induction false} HeaderIsBytes(n: nat, now: nat, t: Byte)
    ensures Header(n, now, t) == [n % 256, n / 256 % 256, n / 65536 % 256, now % 256, now / 256 % 256, now / 65536 % 256,
                                  now / 16777216 % 256, t]
  {
    FixedThree(n);
    FixedFour(now);
  }

  lemma {:induction false} FixedThree(v: nat)
    ensures Fixed(v, 3) == [v % 256, v / 256 % 256, v / 65536 % 256]
  {
    assert Fixed(v / 256 / 256, 1) == [v / 256 / 256 % 256] + Fixed(v / 256 / 256 / 256, 0);
    assert Fixed(v / 256, 2) == [v / 256 % 256] + Fixed(v / 256 / 256, 1);
    assert v / 256 / 256 == v / 65536;
  }

  lemma {:induction false} FixedFour(v: nat)
    ensures Fixed(v, 4) == [v % 256, v / 256 % 256, v / 65536 % 256, v / 16777216 % 256]
  {
    FixedThree(v / 256);
    assert v / 256 / 256 == v / 65536 && v / 256 / 65536 == v / 16777216;
  }

  /**
   One record of an item byte by byte. From p, fewer than eight bytes before the end of a 64 KiB block are zeros;
   then comes a header with the length, the time and the type (1 for a whole item, 2 for its beginning, 4 for its
   end, 3 in between), and as much of the item as the block has room for.
   */
  lemma {:induction false} FragmentIsBytes(clock: Clock, p: nat, begin: bool, left: seq<Byte>)
    ensures var room := 65536 - p % 65536;
            var skip := if room < 8 then room else 0;
            var n := if |left| < (if room < 8 then 65536 else room) - 8 then |left| else (if room < 8 then 65536 else room) - 8;
            var end := n == |left|;
            var now := clock(p + skip);
            && 0 <= n <= |left|
            && Fragment(clock, p, begin, left)
               == Zeros(skip)
                  + [n % 256, n / 256 % 256, n / 65536 % 256, now % 256, now / 256 % 256, now / 65536 % 256,
                     now / 16777216 % 256, if begin then (if end then 1 else 2) else if end then 4 else 3]
                  + left[..n]
  {
    hide Header;
    var q := Align(p);
    var n := FragmentLength(q, |left|);
    HeaderIsBytes(n, clock(q), RecordType(begin, n == |left|));
  }

  /** One when the record at p carries no payload; the second component of the progress measure. */
  function EmptySlot(p: nat): nat {
    if Space(p) == kHeaderSize then 1 else 0
  }

  /** All the bytes that encode `left` from file offset p on. */
  function Layout(clock: Clock, p: nat, begin: bool, left: seq<Byte>): (s: seq<Byte>)
    ensures |s| >= kHeaderSize
    decreases |left|, EmptySlot(p)
  {
    var n := FragmentLength(Align(p), |left|);
    var s := Fragment(clock, p, begin, left);
    if n == |left| then s else s + Layout(clock, p + |s|, false, left[n..])
  }

  /** A record of type t with the given payload stands at q. */
  ghost predicate RecordAt(f: seq<Byte>, q: nat, t: Byte, payload: seq<Byte>) {
    && q + kHeaderSize + |payload| <= |f|
    && LengthField(f[q], f[q + 1], f[q + 2]) == |payload|
    && f[q + 7] == t
    && f[q + kHeaderSize..q + kHeaderSize + |payload|] == payload
  }

  /** From p to e the file holds exactly the records of `item`. */
  ghost predicate ItemAt(f: seq<Byte>, p: nat, begin: bool, item: seq<Byte>, e: nat)
    decreases |item|, EmptySlot(p)
  {
    var q := Align(p);
    var n := FragmentLength(q, |item|);
    && RecordAt(f, q, RecordType(begin, n == |item|), item[..n])
    && if n == |item| then e == q + kHeaderSize + n
       else ItemAt(f, q + kHeaderSize + n, false, item[n..], e)
  }

  /** A record that does not end the item carries payload, or fills up a block. */
  lemma {:induction false} Progress(p: nat, len: nat)
    requires FragmentLength(Align(p), len) < len
    ensures var n := FragmentLength(Align(p), len);
            n > 0 || EmptySlot(Align(p) + kHeaderSize + n) < EmptySlot(p)
  {
  }

  /** An item takes up at least a header, and ends inside the file. */
  lemma {:induction false} ItemBounds(f: seq<Byte>, p: nat, begin: bool, item: seq<Byte>, e: nat)
    requires ItemAt(f, p, begin, item, e)
    ensures p + kHeaderSize <= e <= |f|
    decreases |item|, EmptySlot(p)
  {
    hide Align, FragmentLength, Space, EmptySlot;
    var q := Align(p);
    var n := FragmentLength(q, |item|);
    if n < |item| {
      Progress(p, |item|);
      ItemBounds(f, q + kHeaderSize + n, false, item[n..], e);
    }
  }

  /** What stands after the end of an item does not matter. */
  lemma {:induction false} ItemFrame(f: seq<Byte>, g: seq<Byte>, p: nat, begin: bool, item: seq<Byte>, e: nat)
    requires ItemAt(f, p, begin, item, e)
    requires e <= |g| && e <= |f| && f[..e] == g[..e]
    ensures ItemAt(g, p, begin, item, e)
    decreases |item|, EmptySlot(p)
  {
    hide Align, FragmentLength, Space, EmptySlot, RecordAt, RecordType;
    var q := Align(p);
    var n := FragmentLength(q, |item|);
    var r := q + kHeaderSize + n;
    if n < |item| {
      ItemBounds(f, r, false, item[n..], e);
    }
    RecordFrame(f, g, q, RecordType(begin, n == |item|), item[..n], e);
    if n < |item| {
      Progress(p, |item|);
      ItemFrame(f, g, r, false, item[n..], e);
    }
  }

  lemma {:induction false} RecordFrame(f: seq<Byte>, g: seq<Byte>, q: nat, t: Byte, payload: seq<Byte>, e: nat)
    requires RecordAt(f, q, t, payload)
    requires q + kHeaderSize + |payload| <= e <= |g| && e <= |f| && f[..e] == g[..e]
    ensures RecordAt(g, q, t, payload)
  {
    forall i | 0 <= i < e
      ensures f[i] == g[i]
    {
      assert f[..e][i] == g[..e][i];
    }
  }

  /** A slice of a slice, counted from the start of the file. */
  lemma {:induction false} SubSlice(f: seq<Byte>, p: nat, e: nat, a: nat, b: nat)
    requires p <= a <= b <= e <= |f|
    ensures f[a..b] == f[p..e][a - p..b - p]
  {
    var s := f[p..e];
    assert forall i | a <= i < b :: s[i - p] == f[i];
  }

  /** Header bytes followed by the payload read back as a record. */
  lemma {:induction false} BytesAreRecord(f: seq<Byte>, q: nat, now: nat, t: Byte, payload: seq<Byte>)
    requires |payload| <= 0xffffff && q + kHeaderSize + |payload| <= |f|
    requires f[q..q + kHeaderSize + |payload|] == Header(|payload|, now, t) + payload
    ensures RecordAt(f, q, t, payload)
  {
    var h := Header(|payload|, now, t);
    var s := f[q..q + kHeaderSize + |payload|];
    HeaderLength(|payload|, now, t);
    assert s[0] == h[0] && s[1] == h[1] && s[2] == h[2] && s[7] == h[7];
    assert s[0] == f[q] && s[1] == f[q + 1] && s[2] == f[q + 2] && s[7] == f[q + 7];
    SubSlice(f, q, q + kHeaderSize + |payload|, q + kHeaderSize, q + kHeaderSize + |payload|);
  }

  lemma {:induction false} FragmentIsRecord(f: seq<Byte>, clock: Clock, p: nat, begin: bool, left: seq<Byte>, q: nat, n: nat)
    requires q == Align(p) && n == FragmentLength(q, |left|)
    requires q + kHeaderSize + n <= |f|
    requires f[p..q + kHeaderSize + n] == Fragment(clock, p, begin, left)
    ensures RecordAt(f, q, RecordType(begin, n == |left|), left[..n])
  {
    var t := RecordType(begin, n == |left|);
    var h := Header(n, clock(q), t);
    var r := q + kHeaderSize + n;
    SubSlice(f, p, r, q, r);
    assert Zeros(q - p) + h + left[..n] == Zeros(q - p) + (h + left[..n]);
    assert f[q..r] == h + left[..n];
    BytesAreRecord(f, q, clock(q), t, left[..n]);
  }

  lemma {:induction false} SplitSlice(f: seq<Byte>, p: nat, r: nat, e: nat, s: seq<Byte>, rest: seq<Byte>)
    requires p <= r <= e <= |f| && |s| == r - p && f[p..e] == s + rest
    ensures f[p..r] == s && f[r..e] == rest
  {
    SubSlice(f, p, e, p, r);
    SubSlice(f, p, e, r, e);
  }

  /** The writer's bytes are the reader's records. */
  lemma {:induction false} LayoutIsItem(f: seq<Byte>, clock: Clock, p: nat, begin: bool, item: seq<Byte>, e: nat)
    requires e == p + |Layout(clock, p, begin, item)| <= |f|
    requires f[p..e] == Layout(clock, p, begin, item)
    ensures ItemAt(f, p, begin, item, e)
    decreases |item|, EmptySlot(p)
  {
    hide Fragment, Align, FragmentLength, Space, EmptySlot, RecordAt, RecordType;
    var q := Align(p);
    var n := FragmentLength(q, |item|);
    var r := q + kHeaderSize + n;
    if n == |item| {
      FragmentIsRecord(f, clock, p, begin, item, q, n);
    } else {
      SplitSlice(f, p, r, e, Fragment(clock, p, begin, item), Layout(clock, r, false, item[n..]));
      FragmentIsRecord(f, clock, p, begin, item, q, n);
      Progress(p, |item|);
      LayoutIsItem(f, clock, r, false, item[n..], e);
    }
  }

  /** The offset in the block and the offset in the file agree; a full block counts as a new one. */
  predicate BlockOffsetOk(blockOffset: nat, w: nat) {
    blockOffset == w % kBlockSize || (blockOffset == kBlockSize && w % kBlockSize == 0)
  }

  lemma {:induction false} BlockAdvances(blockOffset: nat, w: nat, n: nat)
    requires BlockOffsetOk(blockOffset, w) && 0 < n && blockOffset + n <= kBlockSize
    ensures BlockOffsetOk(blockOffset + n, w + n)
  {
  }
}
