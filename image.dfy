/** The 64 KiB memory image the download is built from: every byte 0xFF,
    then the data of each record segment of the S19 file written at its
    address, later segments over earlier ones.  An address beyond the image
    is the index error of the image list. */
module MemoryImage {
  import opened Common

  const IMAGE_SIZE := 0x10000
  const BLANK: byte := 0xFF

  /** A contiguous run of record data at `address`. */
  datatype Segment = Segment(address: nat, data: seq<byte>)

  function Blank(): seq<byte> { seq(IMAGE_SIZE, _ => BLANK) }

  /** The first address of `s` outside an image of `size` bytes. */
  function FirstOutside(s: Segment, size: nat): int { Max(s.address, size) }

  /** `m` with the data of `s` written at its address, or the index error at
      the first address past the end. */
  function Overlay(m: seq<byte>, s: Segment): (r: Result<seq<byte>>)
    ensures r.Ok? ==> |r.value| == |m|
  {
    if s.address + |s.data| <= |m| || s.data == [] then
      Ok(seq(|m|, k requires 0 <= k < |m| =>
        if s.address <= k < s.address + |s.data| then s.data[k - s.address] else m[k]))
    else Err(ImageOutOfRange(FirstOutside(s, |m|)))
  }

  /** All segments in order over the blank image. */
  function Image(segs: seq<Segment>): (r: Result<seq<byte>>)
    ensures r.Ok? ==> |r.value| == IMAGE_SIZE
    decreases |segs|
  {
    if segs == [] then Ok(Blank())
    else match Image(segs[..|segs| - 1])
      case Err(e) => Err(e)
      case Ok(m) => Overlay(m, segs[|segs| - 1])
  }

  /** The byte the last segment holding `a` gives it, if any. */
  function LastCover(segs: seq<Segment>, a: int): Option<byte>
    decreases |segs|
  {
    if segs == [] then None
    else
      var s := segs[|segs| - 1];
      if s.address <= a < s.address + |s.data| then Some(s.data[a - s.address])
      else LastCover(segs[..|segs| - 1], a)
  }

  predicate InImage(s: Segment) { s.address + |s.data| <= IMAGE_SIZE || s.data == [] }

  /** The image is built exactly when every segment lies inside it, and then
      it is 64 KiB, each address holding the byte of the last segment that
      covers it and 0xFF where none does. */
  lemma {:induction false} ImageContents(segs: seq<Segment>)
    ensures Image(segs).Ok? <==> forall i :: 0 <= i < |segs| ==> InImage(segs[i])
    ensures Image(segs).Ok? ==>
      && |Image(segs).value| == IMAGE_SIZE
      && forall a :: 0 <= a < IMAGE_SIZE ==>
           Image(segs).value[a] == (match LastCover(segs, a) case None => BLANK case Some(b) => b)
    decreases |segs|
  {
    if segs != [] {
      var p := segs[..|segs| - 1];
      var s := segs[|segs| - 1];
      ImageContents(p);
      assert forall i :: 0 <= i < |p| ==> p[i] == segs[i];
      if Image(p).Ok? {
        var m := Image(p).value;
        if InImage(s) {
          forall a | 0 <= a < IMAGE_SIZE
            ensures Image(segs).value[a] == (match LastCover(segs, a) case None => BLANK case Some(b) => b)
          {
            assert Image(segs).value[a] == if s.address <= a < s.address + |s.data| then s.data[a - s.address] else m[a];
          }
        }
      } else {
        var i :| 0 <= i < |p| && !InImage(p[i]);
        assert !InImage(segs[i]);
      }
    }
  }

  /** The error names the first address past the end of the first segment
      that does not fit. */
  lemma {:induction false} ImageError(segs: seq<Segment>, k: nat)
    requires k < |segs| && !InImage(segs[k])
    requires forall i :: 0 <= i < k ==> InImage(segs[i])
    ensures Image(segs) == Err(ImageOutOfRange(Max(segs[k].address, IMAGE_SIZE)))
    decreases |segs|
  {
    var p := segs[..|segs| - 1];
    if k < |segs| - 1 {
      assert p[k] == segs[k];
      assert forall i :: 0 <= i < k ==> p[i] == segs[i];
      ImageError(p, k);
    } else {
      assert forall i :: 0 <= i < k ==> p[i] == segs[i];
      ImageContents(p);
    }
  }

  /** The image build as the loader runs it: a blank list of 65536 bytes,
      then each segment's bytes stored one address at a time. */
  method BuildImage(segs: seq<Segment>) returns (mem: array<byte>, o: Outcome)
    ensures fresh(mem) && mem.Length == IMAGE_SIZE
    ensures Image(segs).Ok? ==> o == Pass && mem[..] == Image(segs).value
    ensures Image(segs).Err? ==> o == Fail(Image(segs).error)
  {
    mem := new byte[IMAGE_SIZE](_ => BLANK);
    assert mem[..] == Blank();
    var j := 0;
    while j < |segs|
      invariant 0 <= j <= |segs| && mem.Length == IMAGE_SIZE
      invariant Image(segs[..j]).Ok? && mem[..] == Image(segs[..j]).value
    {
      assert segs[..j + 1][..j] == segs[..j];
      o := WriteSegment(mem, segs[j]);
      if o.Fail? {
        ImagePrefixFails(segs, j + 1);
        return;
      }
      j := j + 1;
    }
    assert segs[..j] == segs;
    o := Pass;
  }

  /** Once a prefix of the segments fails, the whole image fails the same way. */
  lemma {:induction false} ImagePrefixFails(segs: seq<Segment>, j: nat)
    requires j <= |segs| && Image(segs[..j]).Err?
    ensures Image(segs) == Image(segs[..j])
    decreases |segs| - j
  {
    if j < |segs| {
      assert segs[..j + 1][..j] == segs[..j];
      ImagePrefixFails(segs, j + 1);
    } else {
      assert segs[..j] == segs;
    }
  }

  /** One segment: `mem[x] = segment.data[i]` for each address of the segment. */
  method WriteSegment(mem: array<byte>, s: Segment) returns (o: Outcome)
    modifies mem
    ensures var r := Overlay(old(mem[..]), s);
      && (r.Ok? ==> o == Pass && mem[..] == r.value)
      && (r.Err? ==> o == Fail(r.error))
  {
    ghost var m := mem[..];
    var i := 0;
    var x := s.address;
    while x < s.address + |s.data|
      invariant s.address <= x <= s.address + |s.data| && i == x - s.address
      invariant x <= mem.Length || i == 0
      invariant forall k :: 0 <= k < mem.Length ==>
        mem[k] == if s.address <= k < x then s.data[k - s.address] else m[k]
    {
      if x >= mem.Length {
        return Fail(ImageOutOfRange(x));
      }
      mem[x] := s.data[i];
      i := i + 1;
      x := x + 1;
    }
    assert mem[..] == Overlay(m, s).value;
    o := Pass;
  }
}
