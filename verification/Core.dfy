/** Shared value types: bytes, fixed-width integers, hashes and addresses. */
module Core {
  const U64: nat := 0x1_0000_0000_0000_0000

  /** No std::vector or std::span of bytes is longer than PTRDIFF_MAX. */
  const SIZE_LIMIT: nat := 0x8000_0000_0000_0000

  type byte = x: int | 0 <= x < 0x100
  type u8 = x: int | 0 <= x < 0x100
  type u16 = x: int | 0 <= x < 0x1_0000
  type u32 = x: int | 0 <= x < 0x1_0000_0000
  type u64 = x: int | 0 <= x < 0x1_0000_0000_0000_0000

  type Bytes = seq<byte>
  type Hash256 = b: Bytes | |b| == 32 witness seq(32, _ => 0)
  type Address = b: Bytes | |b| == 20 witness seq(20, _ => 0)

  datatype Option<+T> = None | Some(value: T)

  /** What an unsigned 64-bit variable keeps of a result. */
  function Wrap(x: int): u64 { x % U64 }

  function Add64(a: u64, b: u64): u64 { Wrap(a + b) }

  function Sub64(a: u64, b: u64): u64 { Wrap(a - b) }

  lemma WrapAdd(x: int, y: int)
    ensures Wrap(Wrap(x) + y) == Wrap(x + y)
  {
    var q := (x + y) / U64 - x / U64;
    assert x % U64 + y == (x + y) % U64 + q * U64;
    var d := (x % U64 + y) / U64 - q;
    assert d * U64 == (x + y) % U64 - (x % U64 + y) % U64;
  }

  ghost predicate Distinct<T>(s: seq<T>) {
    forall i, j :: 0 <= i < j < |s| ==> s[i] != s[j]
  }

  function Last<T>(s: seq<T>): T
    requires s != []
  {
    s[|s| - 1]
  }

  /** A sequence without repetitions has as many elements as positions. */
  lemma {:induction false} DistinctCardinality<T>(s: seq<T>, all: set<T>)
    requires Distinct(s)
    requires forall x <- s :: x in all
    ensures |s| <= |all|
  {
    if s != [] {
      var rest := s[..|s| - 1];
      forall x <- rest ensures x in all - {Last(s)} {
        var i :| 0 <= i < |rest| && rest[i] == x;
      }
      DistinctCardinality(rest, all - {Last(s)});
    }
  }
}
