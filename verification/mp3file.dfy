/** The entry point over a whole file: skip an ID3v2 tag at the start, then
    scan for the first MPEG frame sync. */
module Mp3File {
  import opened Common
  import opened Arith
  import opened Mp3Frame
  import opened Id3

  /** A frame sync starts at p: the byte FF followed by a byte whose top
      three bits are set, so that eleven set bits begin at p. */
  function SyncAt(buf: seq<Byte>, p: nat): (r: bool)
    ensures r <==> p + 1 < |buf| && buf[p] == 0xFF && ByteBits(buf[p + 1], 0, 3) == 7
  {
    if p + 1 < |buf| then
      TopThreeBits(buf[p + 1]);
      buf[p] == 0xFF && buf[p + 1] >= 0xE0
    else false
  }

  /** `find_next_frame(buf, offset)`: walk forward from `offset`; a byte
      other than FF moves on by one; an FF whose next byte has its top three
      bits set is the answer; any other FF moves on by two, since the byte
      after it is then not FF and cannot start a sync either. The walk
      stops, with no answer, when fewer than two bytes remain. */
  method FindNextFrame(buf: seq<Byte>, offset: nat) returns (r: Option<nat>)
    ensures r.Some? ==> offset <= r.value < |buf| - 1 && SyncAt(buf, r.value)
    ensures r.Some? ==> forall q :: offset <= q < r.value ==> !SyncAt(buf, q)
    ensures r.None? ==> forall q :: offset <= q ==> !SyncAt(buf, q)
  {
    var pos := offset;
    var bufsiz := |buf|;
    while pos < bufsiz - 1
      invariant offset <= pos
      invariant forall q :: offset <= q < pos ==> !SyncAt(buf, q)
      decreases bufsiz - pos
    {
      if buf[pos] != 0xFF {
        pos := pos + 1;
        continue;
      }
      TopThreeBits(buf[pos + 1]);
      if Mask(Shr(buf[pos + 1], 5), 3) == 7 {
        return Some(pos);
      }
      pos := pos + 2;
    }
    return None;
  }

  /** The scanner's test at p is the header's own sync test on the bytes
      from p, and on a whole header it is the 11-bit `frame_sync` field
      being all ones. */
  lemma SyncAtIsFrameSync(buf: seq<Byte>, p: nat)
    requires p < |buf|
    ensures SyncAt(buf, p) <==> HasFrameSync(buf[p..]) == Ok(true)
    ensures p + 4 <= |buf| ==> (SyncAt(buf, p) <==> DecodeHeader(buf[p..]).value.frameSync == 0x7FF)
  {
    if p + 1 < |buf| {
      TopThreeBits(buf[p + 1]);
    }
    if p + 4 <= |buf| {
      FrameSyncIsField(buf[p..]);
    }
  }

  /** A decoded file: the ID3v2 tag when the data begins with one, and the
      position of the first frame sync after it, if any. `firstFrame` is the
      constructor's local `offset`, which the code does not keep as an
      attribute. */
  datatype File = File(id3v2: Option<Tag>, firstFrame: Option<nat>)

  /** Where the frame scan starts: past the tag, header included, when the
      file begins with "ID3", and at 0 otherwise. */
  function ScanStart(f: File): nat
  {
    if f.id3v2.Some? then f.id3v2.value.size else 0
  }

  /** `MP3File(data)`: parse the ID3v2 tag when the data begins with "ID3",
      then scan for a frame from the end of the tag. A tag that fails to
      parse is the file's failure. */
  method OpenFile(data: seq<Byte>) returns (r: Result<File>)
    ensures r.Ok? <==> !HasId3v2(data) || ParseTag(data).Ok?
    ensures r.Err? ==> r == Err(ParseTag(data).error)
    ensures r.Ok? ==> (r.value.id3v2.Some? <==> HasId3v2(data))
    ensures r.Ok? && r.value.id3v2.Some? ==>
      r.value.id3v2.value == ParseTag(data).value && ScanStart(r.value) == 10 + r.value.id3v2.value.header.tagsize
    ensures r.Ok? && r.value.firstFrame.Some? ==>
      var p := r.value.firstFrame.value;
      ScanStart(r.value) <= p && SyncAt(data, p) &&
      forall q :: ScanStart(r.value) <= q < p ==> !SyncAt(data, q)
    ensures r.Ok? && r.value.firstFrame.None? ==>
      forall q :: ScanStart(r.value) <= q ==> !SyncAt(data, q)
  {
    var offset := 0;
    var tag: Option<Tag> := None;
    if HasId3v2(data) {
      var t :- ParseTag(data);
      tag := Some(t);
      offset := offset + t.size;
    }
    var frame := FindNextFrame(data, offset);
    return Ok(File(tag, frame));
  }
}
