/** The receive ring buffer (rBuf.c): `len` bytes of storage hold at most `len - 1` bytes of data. */
module RBuf {
  import opened Bytes

  /** The data between two indices of a circular store, oldest first. */
  function Window(s: seq<byte>, out: nat, in_: nat): seq<byte>
    requires out <= |s| && in_ <= |s|
  {
    if out <= in_ then s[out..in_] else s[out..] + s[..in_]
  }

  /** `t` is `s` with `data` copied over it from index `at` on. */
  ghost predicate Overwritten(t: seq<byte>, s: seq<byte>, at: nat, data: seq<byte>) {
    && |t| == |s| && at + |data| <= |s|
    && t[at..at + |data|] == data
    && t[..at] == s[..at]
    && t[at + |data|..] == s[at + |data|..]
  }

  /** Copying data in at the input index and advancing it appends to the window. */
  lemma WindowAppend(t: seq<byte>, s: seq<byte>, out: nat, in_: nat, data: seq<byte>)
    requires out <= |s| && Overwritten(t, s, in_, data)
    requires out > in_ ==> in_ + |data| < out
    ensures Window(t, out, in_ + |data|) == Window(s, out, in_) + data
  {
    var end := in_ + |data|;
    assert t[..end] == t[..in_] + t[in_..end];
    if out > in_ {
      assert t[out..] == t[end..][out - end..] == s[end..][out - end..] == s[out..];
    } else {
      assert t[out..end] == t[..end][out..] == (s[..in_] + data)[out..] == s[out..in_] + data;
    }
  }

  /** A window that reaches the end of the store continues at its start. */
  lemma WindowWrap(t: seq<byte>, s: seq<byte>, out: nat, data: seq<byte>)
    requires |data| < out <= |s| && Overwritten(t, s, 0, data)
    ensures Window(t, out, |data|) == Window(s, out, |s|) + data
  {
    var n := |data|;
    assert t[out..] == t[n..][out - n..] == s[n..][out - n..] == s[out..];
    assert t[..n] == t[0..n];
  }

  lemma WindowLength(s: seq<byte>, out: nat, in_: nat)
    requires out <= in_ <= |s|
    ensures |Window(s, out, in_)| == in_ - out
  {
  }

  /** The end of the store is the same place as its start. */
  lemma WindowRestarts(s: seq<byte>, out: nat)
    requires 0 < out <= |s|
    ensures Window(s, out, |s|) == Window(s, out, 0)
  {
    assert s[out..] + s[..0] == s[out..];
  }

  /** The first bytes of a wrapped window: up to the end of the store, then from its start. */
  lemma WindowPrefix(s: seq<byte>, out: nat, in_: nat, first: nat, rest: nat)
    requires in_ < out && out + first <= |s| && rest <= in_ && (rest > 0 ==> out + first == |s|)
    ensures |Window(s, out, in_)| == |s| - out + in_
    ensures Window(s, out, in_)[..first + rest] == s[out..out + first] + s[0..rest]
  {
  }

  lemma Copied(before: seq<byte>, part: seq<byte>, after: seq<byte>)
    requires |after| == |before| + |part|
    requires forall k :: 0 <= k < |before| ==> after[k] == before[k]
    requires forall k :: |before| <= k < |after| ==> after[k] == part[k - |before|]
    ensures after == before + part
  {
  }

  lemma JoinPrefix(was: seq<byte>, data: seq<byte>, i: nat, j: nat)
    requires i <= j <= |data|
    ensures (was + data[..i]) + data[i..][..j - i] == was + data[..j]
  {
    assert data[..i] + data[i..][..j - i] == data[..j];
  }

  class Ring {
    /** pRbuf->buf, whose Length is pRbuf->len */
    const buf: array<byte>
    var inIndex: nat
    var outIndex: nat

    /** The indices are compared as `int`, so the storage is below 2^31 bytes. */
    ghost predicate Valid()
      reads this
    {
      0 < buf.Length < 0x8000_0000 && inIndex < buf.Length && outIndex < buf.Length
    }

    /** The bytes waiting to be taken, oldest first. */
    ghost function Contents(): seq<byte>
      requires Valid()
      reads this, buf
    {
      Window(buf[..], outIndex, inIndex)
    }

    constructor (storage: array<byte>)
      requires 0 < storage.Length < 0x8000_0000
      ensures Valid() && buf == storage && Contents() == []
    {
      buf := storage;
      inIndex := 0;
      outIndex := 0;
    }

    /** rBufClear, and rBufInit which does the same. */
    method Clear()
      requires Valid()
      modifies this
      ensures Valid() && Contents() == []
    {
      inIndex := 0;
      outIndex := 0;
    }

    /**
      The copy loop of rBufPut, `pRbuf->buf[at+i]=data[i]`. Data copied to the free bytes at the
      end of the window extends it; `at == 0` is the window that ended with the storage.
     */
    method CopyIn(at: nat, data: seq<byte>)
      requires outIndex < buf.Length && at + |data| <= buf.Length
      requires outIndex > at ==> at + |data| < outIndex
      modifies buf
      ensures Window(buf[..], outIndex, at + |data|) == Window(old(buf[..]), outIndex, at) + data
      ensures at == 0 && |data| < outIndex ==>
                Window(buf[..], outIndex, |data|) == Window(old(buf[..]), outIndex, buf.Length) + data
    {
      ghost var s := buf[..];
      for i := 0 to |data|
        invariant forall k :: at <= k < at + i ==> buf[k] == data[k - at]
        invariant forall k :: 0 <= k < buf.Length && !(at <= k < at + i) ==> buf[k] == old(buf[k])
      {
        buf[at + i] := data[i];
      }
      assert Overwritten(buf[..], s, at, data);
      WindowAppend(buf[..], s, outIndex, at, data);
      if at == 0 && |data| < outIndex {
        WindowWrap(buf[..], s, outIndex, data);
      }
    }

    /** The copy loop of rBufGet: `dst[to+i]=pRbuf->buf[at+i]`. */
    method CopyOut(at: nat, dst: array<byte>, to: nat, n: nat)
      requires at + n <= buf.Length && to + n <= dst.Length && dst != buf
      modifies dst
      ensures dst[..to + n] == old(dst[..to]) + buf[at..at + n]
      ensures forall k :: to + n <= k < dst.Length ==> dst[k] == old(dst[k])
    {
      for i := 0 to n
        invariant forall k :: to <= k < to + i ==> dst[k] == buf[at + k - to]
        invariant forall k :: 0 <= k < dst.Length && !(to <= k < to + i) ==> dst[k] == old(dst[k])
      {
        dst[to + i] := buf[at + i];
      }
      Copied(old(dst[..to]), buf[at..at + n], dst[..to + n]);
    }

    /** rBufPut appends the longest prefix of the input that fits. */
    method Put(data: seq<byte>) returns (put: nat)
      requires Valid()
      modifies `inIndex, buf
      ensures Valid() && put == Min(|data|, buf.Length - 1 - |old(Contents())|)
      ensures Contents() == old(Contents()) + data[..put]
    {
      if outIndex > inIndex {
        put := Min(|data|, outIndex - inIndex - 1);
        CopyIn(inIndex, data[..put]);
        inIndex := inIndex + put;
      } else if outIndex == 0 {
        put := Min(|data|, buf.Length - inIndex - 1);
        CopyIn(inIndex, data[..put]);
        inIndex := inIndex + put;
      } else {
        put := PutSplit(data);
      }
    }

    /** The branch that may wrap: up to the end of the storage, then up to just before outIndex. */
    method PutSplit(data: seq<byte>) returns (put: nat)
      requires Valid() && 0 < outIndex <= inIndex
      modifies `inIndex, buf
      ensures Valid() && put == Min(|data|, buf.Length - 1 - |old(Contents())|)
      ensures Contents() == old(Contents()) + data[..put]
    {
      hide Window;
      ghost var was := Contents();
      WindowLength(buf[..], outIndex, inIndex);
      put := Min(|data|, buf.Length - inIndex);
      CopyIn(inIndex, data[..put]);
      inIndex := inIndex + put;
      if put < |data| {
        var rest := PutFromStart(data[put..]);
        JoinPrefix(was, data, put, put + rest);
        put := put + rest;
      } else if inIndex == buf.Length {
        WindowRestarts(buf[..], outIndex);
        inIndex := 0;
      }
    }

    /** The second copy of the wrapping branch, once the end of the storage has been filled. */
    method PutFromStart(data: seq<byte>) returns (put: nat)
      requires 0 < outIndex < buf.Length < 0x8000_0000 && inIndex == buf.Length
      modifies `inIndex, buf
      ensures Valid() && put == Min(|data|, outIndex - 1)
      ensures Contents() == Window(old(buf[..]), outIndex, buf.Length) + data[..put]
    {
      put := Min(|data|, outIndex - 1);
      CopyIn(0, data[..put]);
      inIndex := put;
    }

    /** rBufGet copies out a prefix and removes nothing. */
    method Get(dst: array<byte>, len: nat) returns (got: nat)
      requires Valid() && len <= dst.Length && dst != buf
      modifies dst
      ensures got == Min(len, |Contents()|) && dst[..got] == Contents()[..got]
      ensures forall k :: got <= k < dst.Length ==> dst[k] == old(dst[k])
    {
      if inIndex >= outIndex {
        got := Min(len, inIndex - outIndex);
        CopyOut(outIndex, dst, 0, got);
        assert Contents()[..got] == buf[outIndex..outIndex + got];
      } else {
        got := GetSplit(dst, len);
      }
    }

    /** The wrapped branch: up to the end of the storage, then from its start. */
    method GetSplit(dst: array<byte>, len: nat) returns (got: nat)
      requires Valid() && len <= dst.Length && dst != buf && inIndex < outIndex
      modifies dst
      ensures got == Min(len, |Contents()|) && dst[..got] == Contents()[..got]
      ensures forall k :: got <= k < dst.Length ==> dst[k] == old(dst[k])
    {
      hide Window;
      var first := Min(len, buf.Length - outIndex);
      CopyOut(outIndex, dst, 0, first);
      var rest := 0;
      assert dst[..first] == buf[outIndex..outIndex + first] && buf[0..0] == [];
      if first < len {
        rest := Min(len - first, inIndex);
        CopyOut(0, dst, first, rest);
      }
      got := first + rest;
      WindowPrefix(buf[..], outIndex, inIndex, first, rest);
    }

    /** rBufRemove drops a prefix. */
    method Remove(len: nat) returns (removed: nat)
      requires Valid()
      modifies `outIndex
      ensures Valid() && removed == Min(len, |old(Contents())|)
      ensures Contents() == old(Contents())[removed..]
    {
      var n: int := inIndex - outIndex;
      if n < 0 {
        n := n + buf.Length;
      }
      removed := Min(len, n);
      var added := outIndex + removed;
      if added >= buf.Length {
        added := added - buf.Length;
      }
      outIndex := added;
    }

    /** rBufNBytes is the length of the data. */
    method NBytes() returns (n: int)
      requires Valid()
      ensures n == |Contents()|
    {
      n := inIndex - outIndex;
      if n < 0 {
        n := n + buf.Length;
      }
    }

    /** rBufIsFull holds exactly when not one more byte can be put. */
    method IsFull() returns (full: bool)
      requires Valid()
      ensures full <==> |Contents()| == buf.Length - 1
    {
      var n := inIndex - outIndex + 1;
      full := n == 0 || n == buf.Length;
    }
  }
}
