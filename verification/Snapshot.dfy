/** Saving the kernel image to disk and restoring it, guarded by its CRC. */
module Snapshot {
  import opened Crc

  /** KERNEL_MAX_SECTORS sectors of 512 bytes. */
  const KERNEL_SIZE: nat := 0x10_0000
  const CHUNKS: nat := 2048
  const SNAPSHOT_MAGIC: nat := 0x43484943
  const SNAPSHOT_HDR_VER: nat := 1
  const CHUNK: nat := 512
  /** sizeof(snapshot_header_t) in 32-bit code. */
  const HEADER_SIZE: nat := 28

  datatype Header = Header(magic: nat, version: nat, size: nat, crc: Reg, tsc: nat, drive: nat, fatWidth: nat)

  /** The snapshot file: absent or without a whole header, or a header and the bytes after it. */
  datatype File = NoFile | File(hdr: Header, payload: seq<Byte>)

  function Min(a: nat, b: nat): nat {
    if a < b then a else b
  }

  predicate IsPlainByte(b: Byte) {
    b != seq(8, _ => false) && b != seq(8, _ => true)
  }

  /** How many of the first `n` bytes are neither 0x00 nor 0xFF. */
  function PlainCount(image: seq<Byte>, n: nat): nat
    requires n <= |image|
  {
    if n == 0 then 0 else PlainCount(image, n - 1) + if IsPlainByte(image[n - 1]) then 1 else 0
  }

  predicate HeaderOk(h: Header) {
    h.magic == SNAPSHOT_MAGIC && h.version == SNAPSHOT_HDR_VER && 0 < h.size <= KERNEL_SIZE
  }

  /** Bytes the i-th read transfers when `given[i]` are on offer: never more than a chunk, than is still
      wanted, or than the file holds. */
  function Transfer(given: nat, size: nat, available: nat, loaded: nat): nat
    requires loaded <= size
  {
    Min(given, Min(Min(size - loaded, CHUNK), if available > loaded then available - loaded else 0))
  }

  /** How the read loop ends, for any pattern of short reads: the bytes loaded, and what a failing read has
      stored behind them. */
  function Ends(given: seq<nat>, spill: seq<Byte>, size: nat, available: nat, loaded: nat): (r: (nat, seq<Byte>))
    requires loaded <= size
    ensures loaded <= r.0 <= size && |r.1| <= Min(size - r.0, CHUNK)
    decreases |given|
  {
    if loaded == size then (loaded, [])
    else if given == [] then (loaded, spill[..Min(|spill|, Min(size - loaded, CHUNK))])
    else
      var n := Transfer(given[0], size, available, loaded);
      if n == 0 then (loaded, []) else Ends(given[1..], spill, size, available, loaded + n)
  }

  /** Bytes loaded when the read loop stops. */
  function Loaded(given: seq<nat>, size: nat, available: nat, loaded: nat): (r: nat)
    requires loaded <= size
    ensures loaded <= r <= size
  {
    Ends(given, [], size, available, loaded).0
  }

  /** What a failing read stores has no part in it. */
  lemma {:induction false} SpillIsBehind(given: seq<nat>, spill: seq<Byte>, size: nat, available: nat, loaded: nat)
    requires loaded <= size
    ensures Ends(given, spill, size, available, loaded).0 == Loaded(given, size, available, loaded)
    decreases |given|
  {
    if loaded < size && given != [] {
      SpillIsBehind(given[1..], spill, size, available, loaded + Transfer(given[0], size, available, loaded));
    }
  }

  lemma EndsStep(given: seq<nat>, i: nat, spill: seq<Byte>, size: nat, available: nat, loaded: nat)
    requires loaded < size && i < |given|
    ensures
      var n := Transfer(given[i], size, available, loaded);
      Ends(given[i..], spill, size, available, loaded) ==
        if n == 0 then (loaded, []) else Ends(given[i + 1..], spill, size, available, loaded + n)
  {
    assert given[i..][0] == given[i] && given[i..][1..] == given[i + 1..];
  }

  /** `image` is `before` with the bytes loaded from the file, and behind them what a failing read stored. */
  ghost predicate HoldsLoaded(file: File, given: seq<nat>, spill: seq<Byte>, size: nat, before: seq<Byte>,
                              image: seq<Byte>)
    requires file.File? && size <= |before|
  {
    var (loaded, extra) := Ends(given, spill, size, |file.payload|, 0);
    && loaded <= |file.payload| && |image| == |before|
    && (forall k :: 0 <= k < |image| ==>
          image[k] == if k < loaded then file.payload[k]
                      else if k < loaded + |extra| then extra[k - loaded]
                      else before[k])
  }

  /** What save writes in front of the image. */
  function SavedHeader(image: seq<Byte>, tsc: nat, drive: nat, fatWidth: nat): Header {
    Header(SNAPSHOT_MAGIC, SNAPSHOT_HDR_VER, KERNEL_SIZE, Crc32(image), tsc, drive, fatWidth)
  }

  /** When restore accepts a file whose reads offer `given`. */
  predicate Accepts(file: File, given: seq<nat>) {
    Intact(file) && Loaded(given, file.hdr.size, |file.payload|, 0) == file.hdr.size
  }

  /** A valid header, all the bytes it speaks of, and their CRC. */
  predicate Intact(file: File) {
    && file.File? && HeaderOk(file.hdr)
    && file.hdr.size <= |file.payload| && Crc32(file.payload[..file.hdr.size]) == file.hdr.crc
  }

  /** No reads make restore accept the file. */
  ghost predicate Refused(file: File) {
    forall given :: !Accepts(file, given)
  }

  // ----- What the medium makes of a save -----

  /** Whether the old file can be removed, whether the file opens for writing, how many writes succeed before
      one fails, and how many bytes the failing write stores all the same. */
  datatype Medium = Medium(unlinks: bool, opens: bool, writes: nat, stored: nat)

  /** The image bytes in the file when the writing ends. */
  function ImageStored(m: Medium): (r: nat)
    ensures r <= KERNEL_SIZE
  {
    if m.writes == 0 then 0
    else if m.writes > CHUNKS then KERNEL_SIZE
    else (m.writes - 1) * CHUNK + Min(m.stored, CHUNK)
  }

  /** When save reports success. */
  predicate Saves(image: seq<Byte>, m: Medium)
    requires |image| == KERNEL_SIZE
  {
    PlainCount(image, 512) >= 8 && m.opens && m.writes > CHUNKS
  }

  /** The snapshot file after a save that found content to save. */
  function LeftBehind(before: File, hdr: Header, image: seq<Byte>, m: Medium): File
    requires |image| == KERNEL_SIZE
  {
    if !m.opens then if m.unlinks then NoFile else before
    else if m.writes == 0 && m.stored < HEADER_SIZE then NoFile
    else File(hdr, image[..ImageStored(m)])
  }

  /** A file is refused whatever its reads offer exactly when it is not intact. */
  lemma RefusedExactly(file: File)
    ensures Refused(file) <==> !Intact(file)
  {
    if Intact(file) {
      var steady := seq(file.hdr.size, _ => 1);
      SteadyReadsSuffice(steady, file.hdr.size, |file.payload|, 0);
      assert Accepts(file, steady);
    }
  }

  /** Part of an image behind its header is intact exactly when it is all of it. */
  lemma IntactExactly(image: seq<Byte>, n: nat, hdr: Header)
    requires n <= |image| == KERNEL_SIZE && HeaderOk(hdr) && hdr.size == KERNEL_SIZE && hdr.crc == Crc32(image)
    ensures Intact(File(hdr, image[..n])) <==> n == KERNEL_SIZE
  {
    if n == KERNEL_SIZE {
      assert image[..n] == image && image[..n][..KERNEL_SIZE] == image;
    }
  }

  /** The file a save leaves behind is intact exactly when it is the old one and that was, or when every byte of
      the image was stored. */
  lemma LeftoverIntact(before: File, image: seq<Byte>, m: Medium, hdr: Header)
    requires |image| == KERNEL_SIZE && HeaderOk(hdr) && hdr.size == KERNEL_SIZE && hdr.crc == Crc32(image)
    ensures Intact(LeftBehind(before, hdr, image, m)) <==>
              if m.opens then m.writes > CHUNKS || (m.writes == CHUNKS && m.stored >= CHUNK)
              else !m.unlinks && Intact(before)
  {
    if m.opens { IntactExactly(image, ImageStored(m), hdr); }
  }

  /** Without a failing write it holds the image. */
  lemma SavedWhole(before: File, image: seq<Byte>, m: Medium, hdr: Header)
    requires |image| == KERNEL_SIZE && m.opens && m.writes > CHUNKS
    ensures LeftBehind(before, hdr, image, m) == File(hdr, image)
  {
    assert image[..KERNEL_SIZE] == image;
  }

  /** In terms of restore: what a save leaves behind is refused whatever the reads exactly when the old file is
      gone, cut off or was refused before, and the new one lacks a byte of the image. */
  lemma LeftoverRefused(before: File, image: seq<Byte>, m: Medium, hdr: Header)
    requires |image| == KERNEL_SIZE && HeaderOk(hdr) && hdr.size == KERNEL_SIZE && hdr.crc == Crc32(image)
    ensures
      Refused(LeftBehind(before, hdr, image, m)) <==>
        (m.unlinks || m.opens || Refused(before)) && (m.opens ==> ImageStored(m) < KERNEL_SIZE)
  {
    RefusedExactly(before);
    RefusedExactly(LeftBehind(before, hdr, image, m));
    LeftoverIntact(before, image, m, hdr);
  }

  /** On a medium that can be read but not changed a save reports failure, and the snapshot of another image
      that was there is accepted afterwards. */
  lemma ReadOnlyMedium(before: seq<Byte>, image: seq<Byte>, given: seq<nat>, tsc: nat, drive: nat, fatWidth: nat)
    requires |before| == |image| == KERNEL_SIZE
    requires |given| >= KERNEL_SIZE && forall i :: 0 <= i < |given| ==> given[i] > 0
    ensures
      var was := File(SavedHeader(before, tsc, drive, fatWidth), before);
      var m := Medium(false, false, 0, 0);
      var left := LeftBehind(was, SavedHeader(image, tsc, drive, fatWidth), image, m);
      !Saves(image, m) && left == was && Accepts(left, given)
  {
    SteadyReadsSuffice(given, KERNEL_SIZE, KERNEL_SIZE, 0);
    assert before[..KERNEL_SIZE] == before;
  }

  /** The last write stores its chunk and still returns an error: the save reports failure, and its file is
      accepted. */
  lemma LastWriteReported(before: File, image: seq<Byte>, given: seq<nat>, tsc: nat, drive: nat, fatWidth: nat)
    requires |image| == KERNEL_SIZE && |given| >= KERNEL_SIZE && forall i :: 0 <= i < |given| ==> given[i] > 0
    ensures
      var m := Medium(true, true, CHUNKS, CHUNK);
      var left := LeftBehind(before, SavedHeader(image, tsc, drive, fatWidth), image, m);
      !Saves(image, m) && Accepts(left, given)
  {
    SteadyReadsSuffice(given, KERNEL_SIZE, KERNEL_SIZE, 0);
    assert image[..KERNEL_SIZE] == image;
  }

  // ----- In numbers -----

  /** The places among the first `n` bytes that hold neither 0x00 nor 0xFF. */
  ghost function PlainPlaces(image: seq<Byte>, n: nat): set<nat>
    requires n <= |image|
  {
    set i: nat | i < n && (exists j :: 0 <= j < 8 && image[i][j]) && (exists j :: 0 <= j < 8 && !image[i][j])
  }

  lemma PlainByteIs(b: Byte)
    ensures IsPlainByte(b) <==> (exists j :: 0 <= j < 8 && b[j]) && (exists j :: 0 <= j < 8 && !b[j])
  {
    if forall j :: 0 <= j < 8 ==> !b[j] { assert b == seq(8, _ => false); }
    if forall j :: 0 <= j < 8 ==> b[j] { assert b == seq(8, _ => true); }
    assert b == seq(8, _ => false) ==> forall j :: 0 <= j < 8 ==> !b[j];
  }

  lemma {:induction false} PlainCountIs(image: seq<Byte>, n: nat)
    requires n <= |image|
    ensures PlainCount(image, n) == |PlainPlaces(image, n)|
    decreases n
  {
    if n == 0 {
      assert PlainPlaces(image, 0) == {};
    } else {
      PlainCountIs(image, n - 1);
      PlainByteIs(image[n - 1]);
      assert PlainPlaces(image, n) == PlainPlaces(image, n - 1) + if IsPlainByte(image[n - 1]) then {n - 1} else {};
    }
  }

  /** A save of the 1 MB image succeeds exactly when 8 of its first 512 bytes are neither 0x00 nor 0xFF, the file
      opens, and the header and 2048 chunks can be written; its file is then the header and the image. */
  lemma SavesExactly(image: seq<Byte>, m: Medium, before: File, tsc: nat, drive: nat, fatWidth: nat)
    requires |image| == 0x10_0000
    ensures Saves(image, m) <==> |PlainPlaces(image, 512)| >= 8 && m.opens && m.writes >= 2049
    ensures
      var saved := File(Header(0x43484943, 1, 0x10_0000, Crc32(image), tsc, drive, fatWidth), image);
      Saves(image, m) ==> LeftBehind(before, SavedHeader(image, tsc, drive, fatWidth), image, m) == saved
  {
    PlainCountIs(image, 512);
    if m.opens && m.writes > CHUNKS { SavedWhole(before, image, m, SavedHeader(image, tsc, drive, fatWidth)); }
  }

  /** Otherwise the file holds the header, if its 28 bytes were stored, and as many bytes of the image as the chunks
      written and what the failing write stored come to. */
  lemma LeftExactly(image: seq<Byte>, m: Medium, before: File, hdr: Header)
    requires |image| == 0x10_0000 && m.opens && m.writes <= 2048
    ensures m.writes == 0 ==> LeftBehind(before, hdr, image, m) == if m.stored < 28 then NoFile else File(hdr, [])
    ensures m.writes > 0 ==>
      LeftBehind(before, hdr, image, m) ==
        File(hdr, image[..512 * (m.writes - 1) + if m.stored < 512 then m.stored else 512])
  {
    assert image[..0] == [];
  }

  /** Restore accepts a file exactly when it carries the magic and the version, speaks of 1 byte to 1 MB, has them,
      and their CRC is the one it carries; given reads that each deliver something, nothing else matters. */
  lemma AcceptsExactly(hdr: Header, payload: seq<Byte>, given: seq<nat>)
    requires (forall i :: 0 <= i < |given| ==> given[i] > 0) && |given| >= 0x10_0000
    ensures Accepts(File(hdr, payload), given) <==>
      && hdr.magic == 0x43484943 && hdr.version == 1 && 0 < hdr.size <= 0x10_0000
      && hdr.size <= |payload| && Crc32(payload[..hdr.size]) == hdr.crc
  {
    if 0 < hdr.size <= 0x10_0000 && hdr.size <= |payload| {
      SteadyReadsSuffice(given, hdr.size, |payload|, 0);
    }
  }

  /** A read moves no more than is offered, than 512 bytes, than is still wanted and than is there, and as much as
      one of these. */
  lemma TransferExactly(given: nat, size: nat, available: nat, loaded: nat)
    requires loaded <= size
    ensures var n := Transfer(given, size, available, loaded);
            && n <= given && n <= 512 && n <= size - loaded && (n > 0 ==> n <= available - loaded)
            && (n == given || n == 512 || n == size - loaded || n == available - loaded || loaded >= available)
  {
  }

  class Loader {
    /** The kernel image in memory. */
    const kern: array<Byte>
    var valid: bool
    var file: File

    ghost predicate Valid()
      reads this
    {
      kern.Length == KERNEL_SIZE
    }

    constructor (file: File)
      ensures Valid() && !valid && this.file == file && fresh(kern)
    {
      kern := new Byte[KERNEL_SIZE](_ => seq(8, _ => false));
      valid := false;
      this.file := file;
    }

    /** kernel_snapshot_save on the medium `m`. */
    method Save(drive: nat, fatWidth: nat, tsc: nat, m: Medium) returns (ok: bool)
      requires Valid()
      modifies this`valid, this`file
      ensures ok <==> Saves(old(kern[..]), m)
      ensures ok ==> valid && file == File(SavedHeader(old(kern[..]), tsc, drive, fatWidth), old(kern[..]))
      ensures !ok ==> valid == old(valid)
      ensures file == if PlainCount(old(kern[..]), 512) < 8 then old(file)
                      else LeftBehind(old(file), SavedHeader(old(kern[..]), tsc, drive, fatWidth), old(kern[..]), m)
      // a failed save leaves an intact file only if the old one stayed or the last write stored its chunk
      ensures !ok && PlainCount(old(kern[..]), 512) >= 8 ==>
                (Intact(file) <==>
                  if m.opens then m.writes == CHUNKS && m.stored >= CHUNK else !m.unlinks && Intact(old(file)))
    {
      ghost var image, before, hdr := kern[..], file, SavedHeader(kern[..], tsc, drive, fatWidth);
      var plain := CountPlain();
      if plain < 8 { return false; }
      ok := Rewrite(drive, fatWidth, tsc, m, image);
      LeftoverIntact(before, image, m, hdr);
      if ok {
        SavedWhole(before, image, m, hdr);
        valid := true;
      }
    }

    /** The part behind the check for content. */
    method Rewrite(drive: nat, fatWidth: nat, tsc: nat, m: Medium, ghost image: seq<Byte>) returns (ok: bool)
      requires Valid() && image == kern[..]
      modifies this`file
      ensures ok <==> m.opens && m.writes > CHUNKS
      ensures file == LeftBehind(old(file), SavedHeader(image, tsc, drive, fatWidth), image, m)
    {
      if m.unlinks { file := NoFile; }
      if !m.opens { return false; }
      var crc := HashCrc32(kern[..]);
      var hdr := Header(SNAPSHOT_MAGIC, SNAPSHOT_HDR_VER, KERNEL_SIZE, crc, tsc, drive, fatWidth);
      ok := WriteFile(hdr, m, image);
    }

    /** From the opening, which cuts the file off, to the close. */
    method WriteFile(hdr: Header, m: Medium, ghost image: seq<Byte>) returns (ok: bool)
      requires Valid() && m.opens && image == kern[..]
      modifies this`file
      ensures ok <==> m.writes > CHUNKS
      ensures file == LeftBehind(old(file), hdr, image, m)
    {
      file := NoFile;
      if m.writes == 0 {
        if m.stored >= HEADER_SIZE { file := File(hdr, []); }
        return false;
      }
      file := File(hdr, []);
      var written := WriteImage(hdr, m.writes - 1, m.stored, image);
      ok := written == KERNEL_SIZE;
    }

    method CountPlain() returns (plain: nat)
      requires Valid()
      ensures plain == PlainCount(kern[..], 512)
    {
      plain := 0;
      for i := 0 to 512
        invariant plain == PlainCount(kern[..], i)
      {
        if IsPlainByte(kern[i]) { plain := plain + 1; }
      }
    }

    /** The write loop: one sector at a time until a write fails, which stores up to `stored` bytes. */
    method WriteImage(hdr: Header, writes: nat, stored: nat, ghost image: seq<Byte>) returns (written: nat)
      requires Valid() && file == File(hdr, []) && image == kern[..]
      modifies this`file
      ensures written == KERNEL_SIZE <==> writes >= CHUNKS
      ensures file == File(hdr, image[..ImageStored(Medium(true, true, writes + 1, stored))])
    {
      written := 0;
      var done := 0;
      while written < KERNEL_SIZE
        invariant written <= KERNEL_SIZE && written == done * 512 && done <= writes
        invariant file == File(hdr, image[..written])
      {
        var chunk := Min(KERNEL_SIZE - written, CHUNK);
        if done == writes {
          Append(written, Min(stored, chunk), image);
          break;
        }
        Append(written, chunk, image);
        written := written + chunk;
        done := done + 1;
      }
    }

    method Append(written: nat, n: nat, ghost image: seq<Byte>)
      requires Valid() && image == kern[..] && written + n <= KERNEL_SIZE
      requires file.File? && file.payload == image[..written]
      modifies this`file
      ensures file == File(old(file).hdr, image[..written + n])
    {
      assert image[..written] + image[written..written + n] == image[..written + n];
      file := File(file.hdr, file.payload + kern[written..written + n]);
    }

    /** kernel_snapshot_restore; `given` is what successive reads have to offer, and `spill` the bytes stored
        by the read that fails after them. */
    method Restore(headerRead: bool, given: seq<nat>, spill: seq<Byte>) returns (ok: bool, fatWidth: nat)
      requires Valid()
      modifies this`valid, kern
      ensures Valid() && file == old(file)
      ensures ok <==> headerRead && Accepts(file, given)
      ensures ok ==> valid && fatWidth == file.hdr.fatWidth && kern[..file.hdr.size] == file.payload[..file.hdr.size]
      ensures !ok ==> valid == old(valid)
      ensures
        if file.File? && headerRead && HeaderOk(file.hdr) then
          HoldsLoaded(file, given, spill, file.hdr.size, old(kern[..]), kern[..])
        else kern[..] == old(kern[..])
    {
      fatWidth := 0;
      if file.NoFile? { return false, 0; }
      if !headerRead { return false, 0; }
      if !HeaderOk(file.hdr) { return false, 0; }
      ok := LoadChecked(given, spill);
      if !ok { return false, 0; }
      valid := true;
      return true, file.hdr.fatWidth;
    }

    /** The read loop and the comparison of the CRC. */
    method LoadChecked(given: seq<nat>, spill: seq<Byte>) returns (ok: bool)
      requires Valid() && file.File? && HeaderOk(file.hdr)
      modifies kern
      ensures ok <==> Accepts(file, given)
      ensures ok ==> kern[..file.hdr.size] == file.payload[..file.hdr.size]
      ensures HoldsLoaded(file, given, spill, file.hdr.size, old(kern[..]), kern[..])
    {
      var size := file.hdr.size;
      var loaded := LoadImage(given, spill, size);
      if loaded != size { return false; }
      ghost var image := kern[..];
      SpillIsBehind(given, spill, size, |file.payload|, 0);
      assert kern[..size] == image[..size] == file.payload[..size];
      var crc := HashCrc32(kern[..size]);
      ok := crc == file.hdr.crc;
    }

    /** The read loop. */
    method LoadImage(given: seq<nat>, spill: seq<Byte>, size: nat) returns (loaded: nat)
      requires Valid() && file.File? && size <= KERNEL_SIZE
      modifies kern
      ensures loaded == Loaded(given, size, |file.payload|, 0) && loaded <= |file.payload|
      ensures HoldsLoaded(file, given, spill, size, old(kern[..]), kern[..])
    {
      ghost var before := kern[..];
      var failed;
      loaded, failed := ReadWhileGood(given, spill, size, before);
      if failed {
        CopyChunk(loaded, spill[..Min(|spill|, Min(size - loaded, CHUNK))]);
      }
      SpillIsBehind(given, spill, size, |file.payload|, 0);
    }

    /** The loop up to the read that fails, if one does. */
    method ReadWhileGood(given: seq<nat>, ghost spill: seq<Byte>, size: nat, ghost before: seq<Byte>)
        returns (loaded: nat, failed: bool)
      requires Valid() && file.File? && size <= KERNEL_SIZE && before == kern[..]
      modifies kern
      ensures loaded <= size && Shows(loaded, [], before)
      ensures Ends(given, spill, size, |file.payload|, 0) ==
                (loaded, if failed then spill[..Min(|spill|, Min(size - loaded, CHUNK))] else [])
    {
      loaded := 0;
      var i := 0;
      while loaded < size && i < |given|
        invariant loaded <= size && i <= |given| && Shows(loaded, [], before)
        invariant Ends(given, spill, size, |file.payload|, 0) == Ends(given[i..], spill, size, |file.payload|, loaded)
      {
        EndsStep(given, i, spill, size, |file.payload|, loaded);
        var n := ReadChunk(given[i], size, loaded, before);
        if n == 0 { return loaded, false; }
        loaded, i := loaded + n, i + 1;
      }
      failed := loaded < size;
    }

    /** Memory holds `loaded` bytes of the file, `extra` behind them, and `before` elsewhere. */
    ghost predicate Shows(loaded: nat, extra: seq<Byte>, before: seq<Byte>)
      reads this, kern
    {
      && kern.Length == |before| && file.File? && loaded <= |file.payload|
      && forall k :: 0 <= k < kern.Length ==>
           kern[k] == if k < loaded then file.payload[k]
                      else if k < loaded + |extra| then extra[k - loaded]
                      else before[k]
    }

    /** One read that succeeds. */
    method ReadChunk(offered: nat, size: nat, loaded: nat, ghost before: seq<Byte>) returns (n: nat)
      requires Valid() && file.File? && loaded <= size <= KERNEL_SIZE && Shows(loaded, [], before)
      modifies kern
      ensures n == Transfer(offered, size, |file.payload|, loaded) && Shows(loaded + n, [], before)
    {
      n := Transfer(offered, size, |file.payload|, loaded);
      CopyChunk(loaded, file.payload[loaded..loaded + n]);
    }

    method CopyChunk(at: nat, bytes: seq<Byte>)
      requires Valid() && at + |bytes| <= KERNEL_SIZE
      modifies kern
      ensures forall k :: 0 <= k < KERNEL_SIZE ==>
                kern[k] == if at <= k < at + |bytes| then bytes[k - at] else old(kern[k])
    {
      for j := 0 to |bytes|
        invariant forall k :: 0 <= k < KERNEL_SIZE ==>
                    kern[k] == if at <= k < at + j then bytes[k - at] else old(kern[k])
      {
        kern[at + j] := bytes[j];
      }
    }
  }

  /** A file whose payload differs from the saved image in at most four consecutive bytes. */
  ghost predicate Damaged(image: seq<Byte>, payload: seq<Byte>) {
    exists at: nat, n: nat :: DamagedAt(image, payload, at, n)
  }

  ghost predicate DamagedAt(image: seq<Byte>, payload: seq<Byte>, at: nat, n: nat) {
    && |payload| == |image| && n <= 4 && at + n <= |image| && payload != image
    && payload[..at] == image[..at] && payload[at + n..] == image[at + n..]
  }

  lemma DamageChangesCrc(image: seq<Byte>, payload: seq<Byte>)
    requires Damaged(image, payload)
    ensures Crc32(payload) != Crc32(image)
  {
    var at: nat, n: nat :| DamagedAt(image, payload, at, n);
    var pre, a, b, post := image[..at], image[at..at + n], payload[at..at + n], image[at + n..];
    assert image == pre + a + post && payload == pre + b + post;
    BurstDetected(pre, a, b, post);
  }

  /** Restore against save: behind the header that save wrote for `image`, the unaltered image is accepted
      exactly when the reads add up to it, whatever their pattern, and an image altered in up to four
      consecutive bytes is never accepted. */
  lemma RestoreAfterSave(image: seq<Byte>, payload: seq<Byte>, given: seq<nat>, tsc: nat, drive: nat, fatWidth: nat)
    requires |image| == KERNEL_SIZE
    ensures
      var hdr := SavedHeader(image, tsc, drive, fatWidth);
      && (Accepts(File(hdr, image), given) <==> Loaded(given, KERNEL_SIZE, KERNEL_SIZE, 0) == KERNEL_SIZE)
      && (Damaged(image, payload) ==> !Accepts(File(hdr, payload), given))
  {
    var hdr := SavedHeader(image, tsc, drive, fatWidth);
    IntactExactly(image, KERNEL_SIZE, hdr);
    assert image[..KERNEL_SIZE] == image;
    if Damaged(image, payload) { DamagedIsRefused(image, payload, hdr); }
  }

  lemma DamagedIsRefused(image: seq<Byte>, payload: seq<Byte>, hdr: Header)
    requires |image| == KERNEL_SIZE && hdr.size == KERNEL_SIZE && hdr.crc == Crc32(image) && Damaged(image, payload)
    ensures !Intact(File(hdr, payload))
  {
    DamageChangesCrc(image, payload);
    assert payload[..|payload|] == payload;
  }

  /** Any pattern of reads that never comes back empty-handed and offers enough loads everything. */
  lemma {:induction false} SteadyReadsSuffice(given: seq<nat>, size: nat, available: nat, loaded: nat)
    requires loaded <= size <= available
    requires (forall i :: 0 <= i < |given| ==> given[i] > 0) && |given| >= size - loaded
    ensures Loaded(given, size, available, loaded) == size
    decreases |given|
  {
    if loaded < size {
      SteadyReadsSuffice(given[1..], size, available, loaded + Transfer(given[0], size, available, loaded));
    }
  }
}
