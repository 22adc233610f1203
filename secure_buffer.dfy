/**
 * GFBuffer: a byte container whose storage (sec_ptr_, sec_size_) lives in a
 * reference-counted Impl. The copy constructor and copy assignment are the
 * defaulted ones, so copies share one Impl and see each other's changes; the
 * model keeps that sharing by letting several GFBuffer objects point at the
 * same Impl object.
 *
 * Every memcpy into the storage goes through Impl.CopyIn, whose precondition
 * is that the write stays inside the allocation.
 */
module SecureBuffer {
  import opened Bytes

  /** kStrlenMaxLength: at most 16 MiB are read from a C string. */
  const StrlenMaxLength: nat := 16 * 1024 * 1024

  /** A `const char*` argument: null, or the readable memory it points at. */
  datatype CharPtr = NullPtr | Mem(bytes: seq<Byte>)

  /** GFBuffer::Impl: the secure allocation and its size. */
  class Impl {
    /** sec_ptr_[0 .. sec_size_) */
    var bytes: seq<Byte>
    /** sec_ptr_ != nullptr */
    var hasStorage: bool

    /** A zero-size Impl holds no allocation, and a non-empty one does. */
    ghost predicate Valid()
      reads this
    {
      hasStorage <==> |bytes| > 0
    }

    /** Impl(): no storage. */
    constructor Empty()
      ensures Valid() && bytes == []
    {
      bytes := [];
      hasStorage := false;
    }

    /** Impl(size): SMASecMalloc(size) unless size is 0. The new bytes are unspecified. */
    constructor (size: nat)
      ensures Valid() && |bytes| == size
    {
      bytes := seq(size, _ => 0);
      hasStorage := size != 0;
    }

    /** memcpy(sec_ptr_ + offset, src, |src|), which must stay inside the allocation. */
    method CopyIn(offset: nat, src: seq<Byte>)
      requires offset + |src| <= |bytes|
      modifies this
      ensures bytes == old(bytes[..offset]) + src + old(bytes[offset + |src|..])
      ensures hasStorage == old(hasStorage)
    {
      bytes := bytes[..offset] + src + bytes[offset + |src|..];
    }
  }

  /** The bytes Left(len) copies: the first min(len, |s|), none when len <= 0. */
  function LeftOf(s: seq<Byte>, len: int): (r: seq<Byte>)
    ensures |r| == if len <= 0 then 0 else Min(len, |s|)
    ensures r == s[..|r|]
  {
    if len <= 0 then [] else s[..Min(len, |s|)]
  }

  /**
   * The bytes Mid(pos, len) copies: from `pos`, at most `len` and no further
   * than the end; none when pos < 0, len <= 0 or pos >= |s|.
   */
  function MidOf(s: seq<Byte>, pos: int, len: int): (r: seq<Byte>)
    ensures |r| == if pos < 0 || len <= 0 || pos >= |s| then 0 else Min(len, |s| - pos)
    ensures forall i :: 0 <= i < |r| ==> r[i] == s[pos + i]
  {
    if pos < 0 || len <= 0 || pos >= |s| then [] else s[pos..pos + Min(len, |s| - pos)]
  }

  /** The bytes Right(len) copies: the last min(len, |s|), none when len <= 0. */
  function RightOf(s: seq<Byte>, len: int): (r: seq<Byte>)
    ensures |r| == if len <= 0 then 0 else Min(len, |s|)
    ensures forall i :: 0 <= i < |r| ==> r[i] == s[|s| - |r| + i]
  {
    if len <= 0 then [] else s[|s| - Min(len, |s|)..]
  }

  /** Left(k) followed by Mid(k, S - k) is the whole content, for every 0 <= k <= S. */
  lemma LeftMidPartition(s: seq<Byte>, k: int)
    requires 0 <= k <= |s|
    ensures LeftOf(s, k) + MidOf(s, k, |s| - k) == s
  {
    var l, m := LeftOf(s, k), MidOf(s, k, |s| - k);
    assert |l + m| == |s|;
    forall i | 0 <= i < |s| ensures (l + m)[i] == s[i] {
      if i >= k { assert (l + m)[i] == m[i - k]; }
    }
  }

  /** Left(k) followed by Right(S - k) is the whole content, for every 0 <= k <= S. */
  lemma LeftRightPartition(s: seq<Byte>, k: int)
    requires 0 <= k <= |s|
    ensures LeftOf(s, k) + RightOf(s, |s| - k) == s
  {
    var l, r := LeftOf(s, k), RightOf(s, |s| - k);
    assert |l + r| == |s|;
    forall i | 0 <= i < |s| ensures (l + r)[i] == s[i] {
      if i >= k { assert (l + r)[i] == r[i - k]; }
    }
  }

  /** The text strnlen delimits in a C string argument, at most 16 MiB long. */
  function CappedCString(str: seq<Byte>): (t: seq<Byte>)
    requires 0 in str || StrlenMaxLength <= |str|
    ensures |t| <= |str| && NulFree(t) && t == str[..|t|]
    ensures |t| == StrlenMaxLength || (|t| < |str| && str[|t|] == 0)
  {
    str[..Strnlen(str, StrlenMaxLength)]
  }

  class GFBuffer {
    /** impl_: null only in a buffer that has been moved from. */
    var impl: Impl?

    ghost predicate Valid()
      reads this, impl
    {
      impl != null && impl.Valid()
    }

    /** The bytes the buffer holds; a moved-from buffer holds none. */
    function Contents(): seq<Byte>
      reads this, impl
    {
      if impl == null then [] else impl.bytes
    }

    /** Size(): sec_size_, or 0 once impl_ is null. A size of 0 means no storage. */
    function Size(): (n: nat)
      reads this, impl
      ensures n == |Contents()|
      ensures impl != null && impl.Valid() ==> (n == 0 <==> !impl.hasStorage)
    {
      if impl == null then 0 else |impl.bytes|
    }

    /** Empty(): Size() == 0. */
    function Empty(): (r: bool)
      reads this, impl
      ensures r <==> Contents() == []
    {
      Size() == 0
    }

    /** GFBuffer(): an empty buffer without storage. */
    constructor ()
      ensures Valid() && fresh(impl) && Contents() == [] && !impl.hasStorage
    {
      impl := new Impl.Empty();
    }

    /** GFBuffer(size): a buffer of `size` unspecified bytes; no storage when size is 0. */
    constructor OfSize(size: nat)
      ensures Valid() && fresh(impl) && |Contents()| == size
      ensures size == 0 ==> !impl.hasStorage
    {
      impl := new Impl(size);
    }

    /** GFBuffer(const QByteArray&), and GFBuffer(const QString&) on the string's UTF-8 bytes. */
    constructor FromBytes(b: seq<Byte>)
      ensures Valid() && fresh(impl) && Contents() == b
    {
      var storage := new Impl(|b|);
      storage.CopyIn(0, b);
      impl := storage;
    }

    /**
     * GFBuffer(const char*): the bytes up to the first NUL, at most 16 MiB of
     * them; a null pointer gives an empty buffer without storage.
     */
    constructor FromCString(str: CharPtr)
      requires str.Mem? ==> 0 in str.bytes || StrlenMaxLength <= |str.bytes|
      ensures Valid() && fresh(impl)
      ensures str.NullPtr? ==> Contents() == [] && !impl.hasStorage
      ensures str.Mem? ==> Contents() == CappedCString(str.bytes)
    {
      var size := if str.Mem? then Strnlen(str.bytes, StrlenMaxLength) else 0;
      var storage := new Impl(size);
      if str.Mem? && size > 0 {
        storage.CopyIn(0, str.bytes[..size]);
      }
      impl := storage;
    }

    /** GFBuffer(const char* buf, size_t size): `size` bytes from `buf`, none when buf is null. */
    constructor FromRaw(buf: CharPtr, size: nat)
      requires buf.Mem? ==> size <= |buf.bytes|
      ensures Valid() && fresh(impl)
      ensures buf.NullPtr? ==> Contents() == [] && !impl.hasStorage
      ensures buf.Mem? ==> Contents() == buf.bytes[..size]
    {
      var storage := new Impl(if buf.Mem? then size else 0);
      if buf.Mem? && size > 0 {
        storage.CopyIn(0, buf.bytes[..size]);
      }
      impl := storage;
    }

    /** The defaulted copy constructor: the copy shares `other`'s storage. */
    constructor Copy(other: GFBuffer)
      ensures impl == other.impl && Contents() == other.Contents()
    {
      impl := other.impl;
    }

    /** The move constructor: takes over `other`'s storage and leaves `other` without one. */
    constructor Move(other: GFBuffer)
      modifies other
      ensures impl == old(other.impl) && other.impl == null
      ensures Contents() == old(other.Contents()) && other.Contents() == []
    {
      impl := other.impl;
      other.impl := null;
    }

    /** The defaulted copy assignment: this buffer now shares `other`'s storage. */
    method CopyAssign(other: GFBuffer)
      modifies this
      ensures impl == other.impl && Contents() == other.Contents()
    {
      impl := other.impl;
    }

    /** Move assignment: a no-op on itself, otherwise takes `other`'s storage and empties it. */
    method MoveAssign(other: GFBuffer)
      modifies this, other
      ensures other == this ==> impl == old(impl)
      ensures other != this ==> impl == old(other.impl) && other.impl == null
    {
      if this != other {
        impl := other.impl;
        other.impl := null;
      }
    }

    /**
     * Resize(n): n == 0 frees the storage; otherwise the storage is
     * reallocated to n bytes, keeping the first min(old size, n).
     */
    method Resize(size: nat)
      requires Valid()
      modifies impl
      ensures Valid()
      ensures |Contents()| == size
      ensures Contents()[..Min(size, old(|Contents()|))] == old(Contents())[..Min(size, old(|Contents()|))]
      ensures size == 0 <==> !impl.hasStorage
    {
      if size == 0 {
        impl.bytes, impl.hasStorage := [], false;
        return;
      }
      var kept := Min(size, |impl.bytes|);
      impl.bytes := impl.bytes[..kept] + seq(size - kept, _ => 0);
      impl.hasStorage := true;
    }

    /**
     * Append(const GFBuffer&) as the source has it. The self branch appends a
     * copy made by the copy constructor, which shares this storage; the size
     * memcpy uses is read from that shared storage after Resize has already
     * grown it, so the copy would end past the allocation. The model reports
     * that write (`overrun`) instead of making it.
     */
    method AppendAsWritten(o: GFBuffer) returns (overrun: bool)
      requires Valid() && (o.impl == null || o.impl.Valid())
      modifies impl
      decreases if o == this then 1 else 0
      ensures Valid()
      ensures overrun <==> o.impl == impl && old(|Contents()|) > 0
      ensures overrun ==> |Contents()| == 2 * old(|Contents()|)
      ensures !overrun ==> Contents() == old(Contents()) + old(o.Contents())
    {
      if o.Empty() {
        return false;
      }
      if o == this {
        var copy := new GFBuffer.Copy(this);
        overrun := AppendAsWritten(copy);
        return;
      }
      var oldSize := |impl.bytes|;
      Resize(oldSize + o.Size());
      var count := o.Size();
      if oldSize + count > |impl.bytes| {
        return true;
      }
      impl.CopyIn(oldSize, o.impl.bytes[..count]);
      overrun := false;
    }

    /**
     * Append(const GFBuffer&) with the source bytes taken before the resize,
     * which is what the self branch's copy is there for: the old bytes followed
     * by `o`'s, also when `o` shares this storage; nothing changes when `o` is
     * empty.
     */
    method Append(o: GFBuffer)
      requires Valid() && (o.impl == null || o.impl.Valid())
      modifies impl
      ensures Valid()
      ensures Contents() == old(Contents()) + old(o.Contents())
      ensures old(o.Contents()) == [] ==> Contents() == old(Contents())
    {
      if o.Empty() {
        return;
      }
      var source := o.Contents();
      var oldSize := |impl.bytes|;
      Resize(oldSize + |source|);
      impl.CopyIn(oldSize, source);
    }

    /** Append(const char* buffer, ssize_t size): the `size` bytes at `buffer` go at the end. */
    method AppendRaw(chunk: seq<Byte>)
      requires Valid()
      modifies impl
      ensures Valid()
      ensures Contents() == old(Contents()) + chunk
    {
      if |chunk| == 0 {
        return;
      }
      var oldSize := |impl.bytes|;
      Resize(oldSize + |chunk|);
      impl.CopyIn(oldSize, chunk);
    }

    /** Left(len): a fresh, unshared buffer holding the first min(len, size) bytes. */
    method Left(len: int) returns (r: GFBuffer)
      requires Valid()
      ensures fresh(r) && fresh(r.impl) && r.Valid()
      ensures r.Contents() == LeftOf(Contents(), len)
    {
      if len <= 0 {
        r := new GFBuffer();
        return;
      }
      var n := Min(len, |impl.bytes|);
      r := new GFBuffer.OfSize(n);
      r.impl.CopyIn(0, impl.bytes[..n]);
    }

    /** Mid(pos, len): a fresh, unshared buffer holding bytes [pos, pos + min(len, size - pos)). */
    method Mid(pos: int, len: int) returns (r: GFBuffer)
      requires Valid()
      ensures fresh(r) && fresh(r.impl) && r.Valid()
      ensures r.Contents() == MidOf(Contents(), pos, len)
    {
      if pos < 0 || len <= 0 || pos >= |impl.bytes| {
        r := new GFBuffer();
        return;
      }
      var n := Min(len, |impl.bytes| - pos);
      r := new GFBuffer.OfSize(n);
      r.impl.CopyIn(0, impl.bytes[pos..pos + n]);
    }

    /** Right(len): a fresh, unshared buffer holding the last min(len, size) bytes. */
    method Right(len: int) returns (r: GFBuffer)
      requires Valid()
      ensures fresh(r) && fresh(r.impl) && r.Valid()
      ensures r.Contents() == RightOf(Contents(), len)
    {
      if len <= 0 {
        r := new GFBuffer();
        return;
      }
      var n := Min(len, |impl.bytes|);
      var source := impl.bytes[|impl.bytes| - n..];
      assert source == RightOf(Contents(), len);
      r := new GFBuffer.OfSize(n);
      r.impl.CopyIn(0, source);
    }

    /** Zeroize(): every byte becomes 0; the size and the storage stay. */
    method Zeroize()
      requires impl == null || impl.Valid()
      modifies impl
      ensures impl == null || (impl.Valid() && impl.hasStorage == old(impl.hasStorage))
      ensures Contents() == seq(|old(Contents())|, _ => 0)
    {
      if impl != null && impl.hasStorage && |impl.bytes| > 0 {
        impl.bytes := seq(|impl.bytes|, _ => 0);
      }
    }

    /**
     * Combine(buffers): one resize to the old size plus the sizes of all
     * inputs, then each non-empty input copied in order; nothing changes when
     * every input is empty. No input may share this buffer's storage: the
     * copy loop reads each input's size after the resize, as Append's self
     * branch does.
     */
    method Combine(bs: seq<GFBuffer>)
      requires Valid()
      requires forall i :: 0 <= i < |bs| ==> bs[i].impl != impl && (bs[i].impl == null || bs[i].impl.Valid())
      modifies impl
      ensures Valid()
      ensures Contents() == old(Contents()) + Concat(old(ContentsOf(bs)))
      ensures Concat(old(ContentsOf(bs))) == [] ==> Contents() == old(Contents())
    {
      ghost var parts := ContentsOf(bs);
      var total := TotalSize(bs);
      if total == 0 {
        return;
      }
      var oldSize := |impl.bytes|;
      Resize(oldSize + total);
      assert |impl.bytes| == oldSize + |Concat(parts)|;
      assert forall i :: 0 <= i < |bs| ==> bs[i].Contents() == parts[i];
      assert old(Contents()) == impl.bytes[..oldSize];
      CopyEach(bs, parts, oldSize);
    }

    /** Combine's copy loop: each non-empty input in turn, right after the previous one. */
    method CopyEach(bs: seq<GFBuffer>, ghost parts: seq<seq<Byte>>, oldSize: nat)
      requires Valid()
      requires |parts| == |bs|
      requires forall i :: 0 <= i < |bs| ==> bs[i].impl != impl && bs[i].Contents() == parts[i]
      requires |impl.bytes| == oldSize + |Concat(parts)|
      modifies impl
      ensures Valid()
      ensures impl.bytes == old(impl.bytes[..oldSize]) + Concat(parts)
    {
      ghost var start := impl.bytes[..oldSize];
      var offset := oldSize;
      var i := 0;
      while i < |bs|
        invariant 0 <= i <= |bs|
        invariant Valid() && |impl.bytes| == oldSize + |Concat(parts)|
        invariant forall j :: 0 <= j < |bs| ==> bs[j].Contents() == parts[j]
        invariant offset == oldSize + |Concat(parts[..i])| <= |impl.bytes|
        invariant impl.bytes[..offset] == start + Concat(parts[..i])
      {
        ConcatStep(parts, i, start);
        ConcatPrefix(parts, i + 1);
        var src := bs[i].Contents();
        if |src| > 0 {
          ghost var before := impl.bytes;
          impl.CopyIn(offset, src);
          SpliceAfter(before, offset, src, start + Concat(parts[..i]));
          offset := offset + |src|;
        }
        i := i + 1;
      }
      assert parts[..|bs|] == parts;
    }

    /** operator==(const GFBuffer&): equal sizes and equal bytes. */
    function Equals(o: GFBuffer): (r: bool)
      reads this, impl, o, o.impl
      ensures r <==> Contents() == o.Contents()
    {
      Size() == o.Size() && (Size() == 0 || MemCmp(Contents(), o.Contents(), Size()) == 0)
    }

    /** operator!=(const GFBuffer&): the negation of ==. */
    function NotEquals(o: GFBuffer): (r: bool)
      reads this, impl, o, o.impl
      ensures r <==> Contents() != o.Contents()
    {
      !Equals(o)
    }

    /** operator<(const GFBuffer&): byte order over the common length, then the shorter first. */
    function Less(o: GFBuffer): (r: bool)
      requires impl != null && o.impl != null
      reads this, impl, o, o.impl
      ensures r == Below(Contents(), o.Contents())
    {
      var minLen := Min(Size(), o.Size());
      var cmp := MemCmp(Contents(), o.Contents(), minLen);
      BelowByCommonPart(Contents(), o.Contents());
      if cmp != 0 then cmp < 0 else Size() < o.Size()
    }

    /** operator==(const char*): the buffer equals the C string's text (at most 16 MiB). */
    function EqualsCString(str: seq<Byte>): (r: bool)
      requires 0 in str || StrlenMaxLength <= |str|
      reads this, impl
      ensures r <==> Contents() == CappedCString(str)
    {
      var n := Strnlen(str, StrlenMaxLength);
      Size() == n && (Size() == 0 || MemCmp(Contents(), str, Size()) == 0)
    }

    /**
     * operator!=(const char*) as the source has it: it also demands equal
     * lengths, so it is false for texts of different lengths and true for two
     * empty ones.
     */
    function NotEqualsCStringAsWritten(str: seq<Byte>): (r: bool)
      requires 0 in str || StrlenMaxLength <= |str|
      reads this, impl
      ensures r <==> |Contents()| == |CappedCString(str)| && (Contents() == [] || Contents() != CappedCString(str))
    {
      var n := Strnlen(str, StrlenMaxLength);
      Size() == n && (Size() == 0 || MemCmp(Contents(), str, Size()) != 0)
    }

    /** operator!=(const char*) as the negation of operator==(const char*). */
    function NotEqualsCString(str: seq<Byte>): (r: bool)
      requires 0 in str || StrlenMaxLength <= |str|
      reads this, impl
      ensures r <==> Contents() != CappedCString(str)
    {
      !EqualsCString(str)
    }
  }

  /** The bytes held by each buffer of `bs`, in order. */
  ghost function ContentsOf(bs: seq<GFBuffer>): (parts: seq<seq<Byte>>)
    reads set i | 0 <= i < |bs| :: bs[i]
    reads set i | 0 <= i < |bs| :: bs[i].impl
    ensures |parts| == |bs| && forall i :: 0 <= i < |bs| ==> parts[i] == bs[i].Contents()
  {
    if bs == [] then [] else ContentsOf(bs[..|bs| - 1]) + [bs[|bs| - 1].Contents()]
  }

  /** The parts one after another. */
  function Concat(parts: seq<seq<Byte>>): seq<Byte>
  {
    if parts == [] then [] else Concat(parts[..|parts| - 1]) + parts[|parts| - 1]
  }

  /** One more part extends the concatenation by that part. */
  lemma ConcatStep(parts: seq<seq<Byte>>, i: nat, prefix: seq<Byte>)
    requires i < |parts|
    ensures Concat(parts[..i + 1]) == Concat(parts[..i]) + parts[i]
    ensures prefix + Concat(parts[..i + 1]) == prefix + Concat(parts[..i]) + parts[i]
  {
    assert parts[..i + 1][..i] == parts[..i];
  }

  /** Writing `src` right after a known prefix extends that prefix by `src`. */
  lemma SpliceAfter(before: seq<Byte>, offset: nat, src: seq<Byte>, prefix: seq<Byte>)
    requires offset + |src| <= |before| && before[..offset] == prefix
    ensures (before[..offset] + src + before[offset + |src|..])[..offset + |src|] == prefix + src
  {
  }

  lemma {:induction false} ConcatPrefix(parts: seq<seq<Byte>>, i: nat)
    requires i <= |parts|
    ensures |Concat(parts[..i])| <= |Concat(parts)|
  {
    if i < |parts| {
      var init := parts[..|parts| - 1];
      assert parts[..i] == init[..i];
      ConcatPrefix(init, i);
    } else {
      assert parts[..i] == parts;
    }
  }

  /** The first loop of Combine: the sizes of all non-empty inputs added up. */
  method TotalSize(bs: seq<GFBuffer>) returns (total: nat)
    ensures total == |Concat(ContentsOf(bs))|
  {
    ghost var parts := ContentsOf(bs);
    total := 0;
    var i := 0;
    while i < |bs|
      invariant 0 <= i <= |bs|
      invariant total == |Concat(parts[..i])|
    {
      ConcatStep(parts, i, []);
      if !bs[i].Empty() {
        total := total + bs[i].Size();
      }
      i := i + 1;
    }
    assert parts[..|bs|] == parts;
  }

  /** Appending a one-byte buffer to itself, as the source has it, writes past the storage. */
  method SelfAppendOverruns() returns (b: GFBuffer, overrun: bool)
    ensures overrun
  {
    b := new GFBuffer.FromBytes([0x61]);
    overrun := b.AppendAsWritten(b);
  }

  /** Appending a one-byte buffer to itself with the bytes taken before the resize doubles it. */
  method SelfAppendDoubles() returns (b: GFBuffer)
    ensures b.Valid() && b.Contents() == [0x61, 0x61]
  {
    b := new GFBuffer.FromBytes([0x61]);
    b.Append(b);
  }

  /** An empty buffer is both == and != the empty C string under the source's operator!=. */
  lemma EmptyIsEqualAndUnequalToEmpty(b: GFBuffer)
    requires b.Contents() == []
    ensures b.EqualsCString([0]) && b.NotEqualsCStringAsWritten([0])
    ensures !b.NotEqualsCString([0])
  {
  }

  /** "a" is neither == nor != "ab" under the source's operator!=. */
  lemma PrefixIsNeitherEqualNorUnequal(b: GFBuffer)
    requires b.Contents() == [0x61]
    ensures !b.EqualsCString([0x61, 0x62, 0]) && !b.NotEqualsCStringAsWritten([0x61, 0x62, 0])
    ensures b.NotEqualsCString([0x61, 0x62, 0])
  {
    assert CappedCString([0x61, 0x62, 0]) == [0x61, 0x62] by {
      var s: seq<Byte> := [0x61, 0x62, 0];
      assert s[0] != 0 && s[1] != 0;
    }
  }
}
