/**
 * Little-endian byte order, as Go's `binary.LittleEndian` reads and writes
 * unsigned integers: the least significant byte comes first.
 */
module LittleEndian {
  import opened Bits

  type byte = u8

  function Pow256(n: nat): (r: nat)
    ensures r > 0
  {
    if n == 0 then 1 else 0x100 * Pow256(n - 1)
  }

  /** The unsigned integer whose little-endian encoding is `s`. */
  function LeUint(s: seq<byte>): (r: nat)
    ensures r < Pow256(|s|)
  {
    if s == [] then 0 else s[0] + 0x100 * LeUint(s[1..])
  }

  /** The `n`-byte little-endian encoding of `x` (the low `n` bytes of `x`). */
  function LeBytes(x: nat, n: nat): (r: seq<byte>)
    ensures |r| == n
  {
    if n == 0 then [] else [x % 0x100] + LeBytes(x / 0x100, n - 1)
  }

  /** Encoding a value that fits in `n` bytes and decoding it gives it back. */
  lemma {:induction false} LeUintOfLeBytes(x: nat, n: nat)
    requires x < Pow256(n)
    ensures LeUint(LeBytes(x, n)) == x
  {
    if n > 0 {
      LeUintOfLeBytes(x / 0x100, n - 1);
      assert LeBytes(x, n)[1..] == LeBytes(x / 0x100, n - 1);
    }
  }

  /** Decoding `s` and encoding the value back to |s| bytes gives `s` back. */
  lemma {:induction false} LeBytesOfLeUint(s: seq<byte>)
    ensures LeBytes(LeUint(s), |s|) == s
  {
    if s != [] {
      LeBytesOfLeUint(s[1..]);
      assert LeUint(s) / 0x100 == LeUint(s[1..]);
    }
  }

  /** Two adjacent little-endian fields read and written back give their bytes. */
  lemma LeBytesOfLeUintPair(lo: seq<byte>, hi: seq<byte>)
    ensures LeBytes(LeUint(lo), |lo|) + LeBytes(LeUint(hi), |hi|) == lo + hi
  {
    LeBytesOfLeUint(lo);
    LeBytesOfLeUint(hi);
  }

  // The fixed widths the loader reads.

  function LeU16(s: seq<byte>): (r: u16)
    requires |s| == 2
  {
    LeUint(s)
  }

  function LeU32(s: seq<byte>): (r: u32)
    requires |s| == 4
  {
    LeUint(s)
  }

  function LeU64(s: seq<byte>): (r: u64)
    requires |s| == 8
  {
    LeUint(s)
  }

  /**
   * Dropping the first record of width `w` from `n` whole records shifts
   * every later record down by one: record `i - 1` of the rest is record
   * `i` of the whole.
   */
  lemma DropRecord<T>(d: seq<T>, w: nat, n: nat, i: nat)
    requires 1 <= i < n && w * n <= |d|
    ensures 0 <= w * (i - 1) && w * i + w <= |d|
    ensures d[w..][w * (i - 1) .. w * (i - 1) + w] == d[w * i .. w * i + w]
  {
    MulMono(w, i + 1, n);
    MulMono(w, 0, i - 1);
    assert w * (i + 1) == w * i + w;
    assert w * (i - 1) == w * i - w;
  }

  /**
   * `binary.Read` into a slice of `n` fixed-size structs: record `i` is
   * decoded by `dec` from bytes [w*i, w*i + w); bytes after the `n`-th
   * record are not read.
   */
  function DecodeRecords<T>(d: seq<byte>, w: nat, n: nat, dec: seq<byte> --> T): (r: seq<T>)
    requires w * n <= |d|
    requires forall b: seq<byte> :: |b| == w ==> dec.requires(b)
    ensures |r| == n
    decreases n
  {
    if n == 0 then []
    else
      MulMono(w, 1, n);
      assert w * (n - 1) == w * n - w;
      [dec(d[..w])] + DecodeRecords(d[w..], w, n - 1, dec)
  }

  /** Record `i` of the result is decoded from bytes [w*i, w*i + w) of `d`. */
  lemma {:induction false} DecodeRecordAt<T>(d: seq<byte>, w: nat, n: nat, dec: seq<byte> --> T, i: nat)
    requires w * n <= |d| && i < n
    requires forall b: seq<byte> :: |b| == w ==> dec.requires(b)
    ensures 0 <= w * i && w * i + w <= |d|
    ensures DecodeRecords(d, w, n, dec)[i] == dec(d[w * i .. w * i + w])
    decreases n
  {
    assert w <= |d| && w * (n - 1) <= |d| - w by {
      MulMono(w, 1, n);
      assert w * (n - 1) == w * n - w;
    }
    var r := DecodeRecords(d, w, n, dec);
    var rest := DecodeRecords(d[w..], w, n - 1, dec);
    assert r == [dec(d[..w])] + rest;
    if i == 0 {
      assert w * i == 0;
      assert d[w * i .. w * i + w] == d[..w];
    } else {
      DropRecord(d, w, n, i);
      DecodeRecordAt(d[w..], w, n - 1, dec, i - 1);
      assert r[i] == rest[i - 1];
    }
  }

  /** Every record of the result is decoded from its own `w` bytes of `d`. */
  lemma DecodeRecordsAt<T>(d: seq<byte>, w: nat, n: nat, dec: seq<byte> --> T)
    requires w * n <= |d|
    requires forall b: seq<byte> :: |b| == w ==> dec.requires(b)
    ensures forall i :: 0 <= i < n ==>
      0 <= w * i && w * i + w <= |d| && DecodeRecords(d, w, n, dec)[i] == dec(d[w * i .. w * i + w])
  {
    forall i | 0 <= i < n
      ensures 0 <= w * i && w * i + w <= |d| && DecodeRecords(d, w, n, dec)[i] == dec(d[w * i .. w * i + w])
    {
      DecodeRecordAt(d, w, n, dec, i);
    }
  }

  /** The first record is decoded from the first `w` bytes, the rest from what follows them. */
  lemma DecodeRecordsStep<T>(d: seq<byte>, w: nat, n: nat, dec: seq<byte> --> T)
    requires n > 0 && w * n <= |d|
    requires forall b: seq<byte> :: |b| == w ==> dec.requires(b)
    ensures w <= |d| && w * (n - 1) <= |d| - w
    ensures DecodeRecords(d, w, n, dec) == [dec(d[..w])] + DecodeRecords(d[w..], w, n - 1, dec)
  {
    MulMono(w, 1, n);
    assert w * (n - 1) == w * n - w;
  }

  /** Bytes after the `n`-th record do not change the records read. */
  lemma {:induction false} DecodeRecordsPrefix<T>(d: seq<byte>, extra: seq<byte>, w: nat, n: nat, dec: seq<byte> --> T)
    requires w * n <= |d|
    requires forall b: seq<byte> :: |b| == w ==> dec.requires(b)
    ensures DecodeRecords(d + extra, w, n, dec) == DecodeRecords(d, w, n, dec)
    decreases n
  {
    if n > 0 {
      DecodeRecordsStep(d, w, n, dec);
      DecodeRecordsStep(d + extra, w, n, dec);
      assert (d + extra)[..w] == d[..w];
      assert (d + extra)[w..] == d[w..] + extra;
      DecodeRecordsPrefix(d[w..], extra, w, n - 1, dec);
    }
  }

  /** Consecutive 32-bit words written little-endian, four bytes each. */
  function LeWords(ws: seq<u32>): (b: seq<byte>)
    ensures |b| == 4 * |ws|
  {
    if ws == [] then [] else LeBytes(ws[0], 4) + LeWords(ws[1..])
  }

  /** Reading back the words that LeWords wrote gives them unchanged. */
  lemma {:induction false} DecodeLeWords(ws: seq<u32>)
    ensures DecodeRecords(LeWords(ws), 4, |ws|, LeU32) == ws
  {
    if ws != [] {
      var b := LeWords(ws);
      DecodeRecordsStep(b, 4, |ws|, LeU32);
      assert b[..4] == LeBytes(ws[0], 4);
      assert b[4..] == LeWords(ws[1..]);
      assert Pow256(4) == 0x1_0000_0000;
      LeUintOfLeBytes(ws[0], 4);
      DecodeLeWords(ws[1..]);
    }
  }

  /** Writing back the `n` words read from `4 * n` bytes gives the bytes unchanged. */
  lemma {:induction false} LeWordsOfDecode(b: seq<byte>, n: nat)
    requires |b| == 4 * n
    ensures LeWords(DecodeRecords(b, 4, n, LeU32)) == b
  {
    if n > 0 {
      var ws := DecodeRecords(b, 4, n, LeU32);
      DecodeRecordsStep(b, 4, n, LeU32);
      assert ws[0] == LeU32(b[..4]) && ws[1..] == DecodeRecords(b[4..], 4, n - 1, LeU32);
      LeBytesOfLeUint(b[..4]);
      LeWordsOfDecode(b[4..], n - 1);
      assert b == b[..4] + b[4..];
    }
  }
}
