/** Pages, page fingerprints and the indices derived from them
    (crates/swap-proxy/src/fingerprint.rs). The hash itself is a parameter of the
    engine: nothing below depends on what it computes. */
module Fingerprints {

  newtype Byte = x: int | 0 <= x < 256

  const PAGE_SIZE: nat := 4096
  const PREFIX_SIZE: nat := 64
  const TWO_32: nat := 0x1_0000_0000
  const TWO_64: nat := 0x1_0000_0000_0000_0000

  type Pos = n: nat | n > 0 witness 64

  datatype Option<+T> = None | Some(value: T)

  type Page = p: seq<Byte> | |p| == PAGE_SIZE witness Filled(0)

  type Fingerprint = f: seq<Byte> | |f| == 16 witness seq(16, i => 0)

  /** The page hash: any function from pages to fingerprints, collisions included. */
  type Hash = Page -> Fingerprint

  /** Arithmetic in whole pages, on the literal size. */
  predicate WholePages(bytes: int) {
    bytes % 4096 == 0
  }

  function PageBytes(pages: nat): nat {
    pages * 4096
  }

  function PageCount(bytes: nat): nat {
    bytes / 4096
  }

  /** The position of a device address inside its page. */
  function InPage(addr: nat): (i: nat)
    ensures i < PAGE_SIZE
  {
    addr % 4096
  }

  function Filled(b: Byte): (p: seq<Byte>)
    ensures |p| == PAGE_SIZE && forall i :: 0 <= i < PAGE_SIZE ==> p[i] == b
  {
    seq(PAGE_SIZE, i => b)
  }

  const ZERO_PAGE: Page := Filled(0)

  /** Truncates or zero-pads `data` to exactly one page. */
  function NormalizePage(data: seq<Byte>): (page: Page)
    ensures forall i :: 0 <= i < PAGE_SIZE ==> page[i] == if i < |data| then data[i] else 0
  {
    if |data| >= PAGE_SIZE then data[..PAGE_SIZE]
    else data + seq(PAGE_SIZE - |data|, i => 0)
  }

  lemma NormalizePageIdentity(page: Page)
    ensures NormalizePage(page) == page
  {
    assert page[..PAGE_SIZE] == page;
  }

  function PagePrefix(data: seq<Byte>): (prefix: seq<Byte>)
    ensures |prefix| == PREFIX_SIZE
    ensures forall i :: 0 <= i < PREFIX_SIZE ==> prefix[i] == if i < |data| then data[i] else 0
  {
    if |data| >= PREFIX_SIZE then data[..PREFIX_SIZE]
    else data + seq(PREFIX_SIZE - |data|, i => 0)
  }

  function Min(a: nat, b: nat): nat {
    if a <= b then a else b
  }

  predicate VerifyPagePrefix(stored: seq<Byte>, data: seq<Byte>) {
    var n := Min(PREFIX_SIZE, Min(|stored|, |data|));
    stored[..n] == data[..n]
  }

  /** On whole pages the guard accepts exactly the pages that agree on the first 64 bytes. */
  lemma PrefixGuard(stored: Page, data: Page)
    ensures VerifyPagePrefix(PagePrefix(stored), data) <==> stored[..PREFIX_SIZE] == data[..PREFIX_SIZE]
  {
    assert PagePrefix(stored)[..PREFIX_SIZE] == stored[..PREFIX_SIZE];
  }

  function LittleEndian(bytes: seq<Byte>): nat {
    if bytes == [] then 0 else bytes[0] as nat + 256 * LittleEndian(bytes[1..])
  }

  /** Three bit positions for a filter of `numBits` bits; the third uses wrapping addition. */
  function BloomIndices(fp: Fingerprint, numBits: Pos): (indices: seq<nat>)
    ensures |indices| == 3 && forall k :: 0 <= k < 3 ==> indices[k] < numBits
  {
    var h1 := LittleEndian(fp[..8]);
    var h2 := LittleEndian(fp[8..]);
    [h1 % numBits, h2 % numBits, ((h1 + h2) % TWO_64) % numBits]
  }
}
