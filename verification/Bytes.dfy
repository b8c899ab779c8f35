/** Machine integers, byte strings and the block copy that the other modules share. */
module Bytes {

  newtype byte = x: int | 0 <= x < 0x100
  newtype uint16 = x: int | 0 <= x < 0x1_0000

  datatype Option<+T> = None | Some(value: T)

  /** `dst` with `src` laid over it from index `at`. */
  function Overlay(dst: seq<byte>, at: nat, src: seq<byte>): (r: seq<byte>)
    requires at + |src| <= |dst|
    ensures |r| == |dst|
  {
    dst[..at] + src + dst[at + |src|..]
  }

  lemma OverlayAt(dst: seq<byte>, at: nat, src: seq<byte>, k: nat)
    requires at + |src| <= |dst| && k < |dst|
    ensures Overlay(dst, at, src)[k] == if at <= k < at + |src| then src[k - at] else dst[k]
  {
  }

  /** Laying two blocks side by side lays their concatenation. */
  lemma OverlayTwice(dst: seq<byte>, first: seq<byte>, second: seq<byte>)
    requires |first| + |second| <= |dst|
    ensures Overlay(Overlay(dst, 0, first), |first|, second) == Overlay(dst, 0, first + second)
  {
    forall k | 0 <= k < |dst|
      ensures Overlay(Overlay(dst, 0, first), |first|, second)[k] == Overlay(dst, 0, first + second)[k]
    {
      OverlayAt(Overlay(dst, 0, first), |first|, second, k);
      OverlayAt(dst, 0, first, k);
      OverlayAt(dst, 0, first + second, k);
    }
  }

  /** memcpy of `src[from..to]` into another block. */
  method Memcpy(dst: array<byte>, at: nat, src: array<byte>, from: nat, to: nat)
    requires from <= to <= src.Length && at + (to - from) <= dst.Length
    requires dst != src
    modifies dst
    ensures dst[..] == Overlay(old(dst[..]), at, src[from..to])
  {
    forall i | 0 <= i < to - from {
      dst[at + i] := src[from + i];
    }
  }

  /** Two block copies in a row, of `src[from..to]` and of `src[from'..to']`. */
  method MemcpyTwice(dst: array<byte>, src: array<byte>, at: nat, from: nat, to: nat, at': nat, from': nat, to': nat)
    requires from <= to <= src.Length && at + (to - from) <= dst.Length
    requires from' <= to' <= src.Length && at' + (to' - from') <= dst.Length
    requires dst != src
    modifies dst
    ensures dst[..] == Overlay(Overlay(old(dst[..]), at, src[from..to]), at', src[from'..to'])
  {
    Memcpy(dst, at, src, from, to);
    Memcpy(dst, at', src, from', to');
  }

  /** The concatenation of a list of byte strings. */
  function Flatten(parts: seq<seq<byte>>): seq<byte> {
    if parts == [] then [] else parts[0] + Flatten(parts[1..])
  }

  lemma Assoc<T>(a: seq<T>, b: seq<T>, c: seq<T>)
    ensures a + (b + c) == a + b + c
  {
  }

  lemma EmptyUnit<T>(s: seq<T>)
    ensures [] + s == s && s + [] == s
  {
  }

  lemma FlattenCons(x: seq<byte>, parts: seq<seq<byte>>)
    ensures Flatten([x] + parts) == x + Flatten(parts)
  {
    assert ([x] + parts)[1..] == parts;
  }

  lemma {:induction false} FlattenAppend(a: seq<seq<byte>>, b: seq<seq<byte>>)
    ensures Flatten(a + b) == Flatten(a) + Flatten(b)
  {
    if a == [] {
      assert a + b == b;
    } else {
      FlattenAppend(a[1..], b);
      assert (a + b)[0] == a[0] && (a + b)[1..] == a[1..] + b;
      Assoc(a[0], Flatten(a[1..]), Flatten(b));
    }
  }

  lemma FlattenSnoc(parts: seq<seq<byte>>, x: seq<byte>)
    ensures Flatten(parts + [x]) == Flatten(parts) + x
  {
    FlattenAppend(parts, [x]);
    assert Flatten([x]) == x + [] == x;
  }

  function Repeat(x: seq<byte>, n: nat): (r: seq<seq<byte>>) {
    if n == 0 then [] else [x] + Repeat(x, n - 1)
  }

  function Zeros(n: nat): (z: seq<byte>)
    ensures |z| == n
    ensures forall i :: 0 <= i < n ==> z[i] == 0
  {
    seq(n, i => 0)
  }
}
