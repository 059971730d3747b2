/** Writing an ICO file whose images are PNG streams: a 6-byte ICONDIR
    header, one 16-byte ICONDIRENTRY per image, then the images themselves,
    back to back. All multi-byte fields are little-endian. The sizes 6 and
    16 are written as literals so that offsets stay linear arithmetic. */
module Ico {
  import opened Bytes
  import opened Icons

  /** The count field is 16 bits wide. */
  const MaxIcons: nat := 65535
  /** The directory stores width and height in one byte, 256 as 0. */
  const MaxIconSize: nat := 256

  // ---------------------------------------------------------------------
  // Field encodings

  /** `ico_size_byte`: the byte stored for a side length. */
  function SizeByte(size: nat): (b: int)
    ensures size <= MaxIconSize ==> 0 <= b < 256
    ensures size == 256 ==> b == 0
    ensures size != 256 ==> b == size
  {
    if size == 256 then 0 else size
  }

  /** How a reader of the directory interprets a width or height byte. */
  function SizeFromByte(b: byte): nat
  {
    if b == 0 then 256 else b
  }

  /** Every side length from 1 to 256 is read back as written. */
  lemma SizeByteRoundTrip(size: nat)
    requires 1 <= size <= MaxIconSize
    ensures SizeFromByte(SizeByte(size)) == size
  {
  }

  /** `struct.pack("<HHH", 0, 1, count)`: reserved, type 1 (icon), count. */
  function Header(count: nat): (h: seq<byte>)
    ensures |h| == 6
  {
    U16LE(0) + U16LE(1) + U16LE(count)
  }

  /** `struct.pack("<BBBBHHII", ...)`: width, height, palette size 0,
      reserved 0, 1 colour plane, 32 bits per pixel, image length, image
      offset. */
  function Entry(width: byte, height: byte, bytesInRes: nat, offset: nat): (e: seq<byte>)
    ensures |e| == 16
  {
    [width, height, 0, 0] + U16LE(1) + U16LE(32) + U32LE(bytesInRes) + U32LE(offset)
  }

  /** The directory entry fields, as a reader decodes them. */
  datatype DirEntry = DirEntry(width: nat, height: nat, colorCount: nat, reserved: nat,
                               planes: nat, bitCount: nat, bytesInRes: nat, imageOffset: nat)

  /** Decoding one 16-byte directory entry. */
  function ReadEntry(e: seq<byte>): DirEntry
    requires |e| == 16
  {
    DirEntry(e[0], e[1], e[2], e[3], DecodeLE(e[4..6]), DecodeLE(e[6..8]),
             DecodeLE(e[8..12]), DecodeLE(e[12..16]))
  }

  /** The fields of an entry, sliced back out. */
  lemma EntryFields(e: seq<byte>, head: seq<byte>, a: seq<byte>, b: seq<byte>, c: seq<byte>, d: seq<byte>)
    requires |head| == 4 && |a| == 2 && |b| == 2 && |c| == 4 && |d| == 4
    requires e == head + a + b + c + d
    ensures e[0] == head[0] && e[1] == head[1] && e[2] == head[2] && e[3] == head[3]
    ensures e[4..6] == a && e[6..8] == b && e[8..12] == c && e[12..16] == d
  {
    assert e[4..6] == a;
    assert e[6..8] == b;
    assert e[8..12] == c;
    assert e[12..16] == d;
  }

  /** An entry reads back as written when its fields fit. */
  lemma ReadEntryRoundTrip(width: byte, height: byte, bytesInRes: nat, offset: nat)
    requires bytesInRes < Pow256(4) && offset < Pow256(4)
    ensures ReadEntry(Entry(width, height, bytesInRes, offset))
         == DirEntry(width, height, 0, 0, 1, 32, bytesInRes, offset)
  {
    var e := Entry(width, height, bytesInRes, offset);
    EntryFields(e, [width, height, 0, 0], U16LE(1), U16LE(32), U32LE(bytesInRes), U32LE(offset));
    DecodeU16LE(1);
    DecodeU16LE(32);
    DecodeU32LE(bytesInRes);
    DecodeU32LE(offset);
  }

  // ---------------------------------------------------------------------
  // The layout

  /** The sum of the images' lengths. */
  function TotalLength(icons: seq<Icon>): nat
  {
    if icons == [] then 0 else TotalLength(icons[..|icons| - 1]) + |icons[|icons| - 1].data|
  }

  /** The images back to back, in order. */
  function Payloads(icons: seq<Icon>): (p: seq<byte>)
    ensures |p| == TotalLength(icons)
  {
    if icons == [] then [] else Payloads(icons[..|icons| - 1]) + icons[|icons| - 1].data
  }

  /** Whether every icon can be described by a directory entry. */
  predicate AllStorable(icons: seq<Icon>)
  {
    forall i :: 0 <= i < |icons| ==> icons[i].size <= MaxIconSize
  }

  /** The entry of an icon whose image starts at `offset`. */
  function IconEntry(icon: Icon, offset: nat): seq<byte>
    requires icon.size <= MaxIconSize
  {
    Entry(SizeByte(icon.size), SizeByte(icon.size), |icon.data|, offset)
  }

  /** The directory entries of `icons` when the first image starts at `base`:
      each entry points just past the images before it. */
  function Directory(icons: seq<Icon>, base: nat): (d: seq<byte>)
    requires AllStorable(icons)
    ensures |d| == 16 * |icons|
  {
    if icons == [] then []
    else
      var init := icons[..|icons| - 1];
      Directory(init, base) + IconEntry(icons[|icons| - 1], base + TotalLength(init))
  }

  /** Where the image of icon i starts in the file. */
  function ImageOffset(icons: seq<Icon>, i: nat): nat
    requires i <= |icons|
  {
    6 + 16 * |icons| + TotalLength(icons[..i])
  }

  // ---------------------------------------------------------------------
  // Errors

  /** The error `build_ico` raises for an icon whose image would start at
      `offset`: too large a side, or a length or offset that the unsigned
      32-bit fields of `struct.pack` refuse. */
  function IconProblem(icon: Icon, offset: nat): (r: Option<Error>)
    ensures r.None? <==> icon.size <= MaxIconSize && |icon.data| < Pow256(4) && offset < Pow256(4)
    ensures icon.size > MaxIconSize ==> r == Some(SizeNotStorable(icon.path, icon.size))
    ensures icon.size <= MaxIconSize && (|icon.data| >= Pow256(4) || offset >= Pow256(4)) ==>
      r == Some(FieldOverflow)
  {
    if icon.size > MaxIconSize then Some(SizeNotStorable(icon.path, icon.size))
    else if |icon.data| >= Pow256(4) || offset >= Pow256(4) then Some(FieldOverflow)
    else None
  }

  /** The error of the first icon that has one. */
  function FirstProblem(icons: seq<Icon>, base: nat): (r: Option<Error>)
    ensures r.None? ==> AllStorable(icons)
  {
    if icons == [] then None
    else
      var init := icons[..|icons| - 1];
      var earlier := FirstProblem(init, base);
      if earlier.Some? then earlier
      else IconProblem(icons[|icons| - 1], base + TotalLength(init))
  }

  /** `build_ico`, as a value. */
  function BuildIcoSpec(icons: seq<Icon>): Result<seq<byte>>
  {
    if |icons| > MaxIcons then Err(TooManyIcons)
    else
      var base := 6 + 16 * |icons|;
      var problem := FirstProblem(icons, base);
      if problem.Some? then Err(problem.value)
      else Ok(Layout(icons))
  }

  /** The file of a list of icons that fits the format: the header, the
      directory and the images. */
  function Layout(icons: seq<Icon>): (out: seq<byte>)
    requires AllStorable(icons)
  {
    Header(|icons|) + Directory(icons, 6 + 16 * |icons|) + Payloads(icons)
  }

  // ---------------------------------------------------------------------
  // build_ico

  /** Once a prefix has a problem, the whole list has that problem. */
  lemma {:induction false} FirstProblemPrefix(icons: seq<Icon>, k: nat, base: nat)
    requires k <= |icons|
    requires FirstProblem(icons[..k], base).Some?
    ensures FirstProblem(icons, base) == FirstProblem(icons[..k], base)
  {
    if k < |icons| {
      var init := icons[..|icons| - 1];
      assert init[..k] == icons[..k];
      FirstProblemPrefix(init, k, base);
    } else {
      assert icons[..k] == icons;
    }
  }

  /** One more icon, whose image starts at `offset`, adds its own check. */
  lemma FirstProblemStep(icons: seq<Icon>, i: nat, base: nat, offset: nat)
    requires i < |icons| && FirstProblem(icons[..i], base).None?
    requires offset == base + TotalLength(icons[..i])
    ensures FirstProblem(icons[..i + 1], base) == IconProblem(icons[i], offset)
  {
    assert icons[..i + 1][..i] == icons[..i];
  }

  /** One more icon, whose image starts at `offset`, extends the checks, the
      images and the entries. */
  lemma BuildStep(icons: seq<Icon>, i: nat, base: nat, offset: nat)
    requires i < |icons| && FirstProblem(icons[..i], base).None?
    requires offset == base + TotalLength(icons[..i])
    ensures FirstProblem(icons[..i + 1], base) == IconProblem(icons[i], offset)
    ensures Payloads(icons[..i + 1]) == Payloads(icons[..i]) + icons[i].data
    ensures IconProblem(icons[i], offset).None? ==>
      Directory(icons[..i + 1], base) == Directory(icons[..i], base)
        + Entry(SizeByte(icons[i].size), SizeByte(icons[i].size), |icons[i].data|, offset)
  {
    assert icons[..i + 1][..i] == icons[..i];
    if IconProblem(icons[i], offset).None? {
      DirectoryUpTo(icons, base, i, offset);
    }
  }

  /** How `BuildIcoSpec` ends once the count is in range. */
  lemma BuildIcoOutcome(icons: seq<Icon>)
    requires |icons| <= MaxIcons
    ensures var base := 6 + 16 * |icons|;
      var problem := FirstProblem(icons, base);
      && (problem.Some? ==> BuildIcoSpec(icons) == Err(problem.value))
      && (problem.None? ==> BuildIcoSpec(icons) == Ok(Header(|icons|) + Directory(icons, base) + Payloads(icons)))
  {
  }

  /** A successful `build_ico` is the header, the directory and the images,
      of a list of icons that fits the format. */
  lemma BuildIcoParts(icons: seq<Icon>, out: seq<byte>)
    requires BuildIcoSpec(icons) == Ok(out)
    ensures |icons| <= MaxIcons && AllStorable(icons)
    ensures out == Header(|icons|) + Directory(icons, 6 + 16 * |icons|) + Payloads(icons)
  {
    BuildIcoOutcome(icons);
  }

  /** `build_ico` fails with the first problem it meets. */
  lemma BuildIcoFails(icons: seq<Icon>, e: Error)
    requires |icons| <= MaxIcons && FirstProblem(icons, 6 + 16 * |icons|) == Some(e)
    ensures BuildIcoSpec(icons) == Err(e)
  {
  }

  /** Where the first problem lies, `build_ico` fails with it. */
  lemma BuildIcoStops(icons: seq<Icon>, i: nat, offset: nat)
    requires |icons| <= MaxIcons && i < |icons|
    requires FirstProblem(icons[..i], 6 + 16 * |icons|).None?
    requires offset == 6 + 16 * |icons| + TotalLength(icons[..i])
    requires IconProblem(icons[i], offset).Some?
    ensures BuildIcoSpec(icons) == Err(IconProblem(icons[i], offset).value)
  {
    var base := 6 + 16 * |icons|;
    var problem := IconProblem(icons[i], offset);
    FirstProblemStep(icons, i, base, offset);
    FirstProblemPrefix(icons, i + 1, base);
    BuildIcoFails(icons, problem.value);
  }

  /** `build_ico`: check the count, then for each icon append its entry and
      its image, advancing the running offset. */
  method BuildIco(icons: seq<Icon>) returns (r: Result<seq<byte>>)
    ensures r == BuildIcoSpec(icons)
  {
    if |icons| > MaxIcons {
      return Err(TooManyIcons);
    }
    var header := Header(|icons|);
    var entries: seq<byte> := [];
    var imageData: seq<byte> := [];
    var base := 6 + 16 * |icons|;
    var offset := base;
    var i := 0;
    while i < |icons|
      invariant 0 <= i <= |icons|
      invariant FirstProblem(icons[..i], base).None?
      invariant entries == Directory(icons[..i], base)
      invariant imageData == Payloads(icons[..i])
      invariant offset == base + |imageData|
    {
      var icon := icons[i];
      if icon.size > MaxIconSize {
        BuildIcoStops(icons, i, offset);
        return Err(SizeNotStorable(icon.path, icon.size));
      }
      var width := SizeByte(icon.size);
      var height := SizeByte(icon.size);
      var bytesInRes := |icon.data|;
      if bytesInRes >= Pow256(4) || offset >= Pow256(4) {
        BuildIcoStops(icons, i, offset);
        return Err(FieldOverflow);
      }
      BuildStep(icons, i, base, offset);
      entries := entries + Entry(width, height, bytesInRes, offset);
      imageData := imageData + icon.data;
      offset := offset + bytesInRes;
      i := i + 1;
    }
    assert icons[..i] == icons;
    BuildIcoOutcome(icons);
    assert BuildIcoSpec(icons) == Ok(header + entries + imageData);
    return Ok(header + entries + imageData);
  }

  // ---------------------------------------------------------------------
  // Properties of the layout

  /** Icon i passes the checks `build_ico` makes on it: its side fits a
      directory byte, and its length and the offset just past the images
      before it fit the 32-bit fields. */
  predicate IconFits(icons: seq<Icon>, base: nat, i: nat)
    requires i < |icons|
  {
    && icons[i].size <= MaxIconSize
    && |icons[i].data| < Pow256(4)
    && base + TotalLength(icons[..i]) < Pow256(4)
  }

  lemma {:induction false} FirstProblemNone(icons: seq<Icon>, base: nat)
    ensures FirstProblem(icons, base).None? <==> forall i :: 0 <= i < |icons| ==> IconFits(icons, base, i)
  {
    if icons != [] {
      var last := |icons| - 1;
      var init := icons[..last];
      FirstProblemNone(init, base);
      forall i | 0 <= i < last
        ensures IconFits(init, base, i) == IconFits(icons, base, i)
      {
        assert init[..i] == icons[..i];
      }
      assert IconFits(icons, base, last) <==> IconProblem(icons[last], base + TotalLength(init)).None?;
      if FirstProblem(icons, base).None? {
        assert FirstProblem(init, base).None?;
        forall i | 0 <= i < |icons|
          ensures IconFits(icons, base, i)
        {
        }
      } else if FirstProblem(init, base).Some? {
        var j :| 0 <= j < last && !IconFits(init, base, j);
        assert !IconFits(icons, base, j);
      } else {
        assert !IconFits(icons, base, last);
      }
    }
  }

  /** `build_ico` fails exactly when there are more than 65535 icons (and
      then with that error), or an icon is larger than 256 pixels, or an
      image length or offset does not fit in 32 bits. */
  lemma BuildIcoSucceeds(icons: seq<Icon>)
    ensures BuildIcoSpec(icons).Ok? <==>
      && |icons| <= MaxIcons
      && forall i :: 0 <= i < |icons| ==>
           && icons[i].size <= MaxIconSize
           && |icons[i].data| < Pow256(4)
           && ImageOffset(icons, i) < Pow256(4)
    ensures |icons| > MaxIcons ==> BuildIcoSpec(icons) == Err(TooManyIcons)
  {
    if |icons| <= MaxIcons {
      var base := 6 + 16 * |icons|;
      FirstProblemNone(icons, base);
      BuildIcoOutcome(icons);
      forall i | 0 <= i < |icons|
        ensures IconFits(icons, base, i) <==>
          icons[i].size <= MaxIconSize && |icons[i].data| < Pow256(4) && ImageOffset(icons, i) < Pow256(4)
      {
      }
    }
  }

  /** The directory of the first k icons is the start of the directory. */
  lemma {:induction false} DirectoryPrefix(icons: seq<Icon>, base: nat, k: nat)
    requires AllStorable(icons) && k <= |icons|
    ensures AllStorable(icons[..k])
    ensures Directory(icons, base)[..16 * k] == Directory(icons[..k], base)
  {
    if k == |icons| {
      assert icons[..k] == icons;
    } else {
      var init := icons[..|icons| - 1];
      var front := Directory(init, base);
      var entry := IconEntry(icons[|icons| - 1], base + TotalLength(init));
      assert Directory(icons, base) == front + entry;
      DirectoryPrefix(init, base, k);
      assert init[..k] == icons[..k];
      PrefixOfFront(front, entry, 16 * k);
    }
  }

  /** The directory of the first i + 1 icons ends with the entry of icon i. */
  lemma DirectoryUpTo(icons: seq<Icon>, base: nat, i: nat, offset: nat)
    requires i < |icons| && AllStorable(icons[..i + 1])
    requires offset == base + TotalLength(icons[..i])
    ensures AllStorable(icons[..i]) && icons[i].size <= MaxIconSize
    ensures Directory(icons[..i + 1], base) == Directory(icons[..i], base) + IconEntry(icons[i], offset)
  {
    assert icons[..i + 1][..i] == icons[..i];
  }

  /** The slice of the directory that describes icon i, whose image starts
      at `offset`. */
  lemma DirectoryAt(icons: seq<Icon>, base: nat, i: nat, offset: nat)
    requires AllStorable(icons) && i < |icons|
    requires offset == base + TotalLength(icons[..i])
    ensures Directory(icons, base)[16 * i..16 * i + 16] == IconEntry(icons[i], offset)
  {
    DirectoryPrefix(icons, base, i + 1);
    DirectoryUpTo(icons, base, i, offset);
    SliceOfBack(Directory(icons[..i], base), IconEntry(icons[i], offset), 16 * i, 16 * i + 16);
    SliceOfPrefix(Directory(icons, base), 16 * i + 16, 16 * i, 16 * i + 16);
  }

  /** The slice of the images that is icon i's. */
  lemma {:induction false} PayloadAt(icons: seq<Icon>, i: nat, start: nat)
    requires i < |icons| && start == TotalLength(icons[..i])
    ensures start + |icons[i].data| <= TotalLength(icons)
    ensures Payloads(icons)[start..start + |icons[i].data|] == icons[i].data
  {
    var last := |icons| - 1;
    var init := icons[..last];
    var p := Payloads(init);
    assert Payloads(icons) == p + icons[last].data;
    if i < last {
      assert init[..i] == icons[..i] && init[i] == icons[i];
      PayloadAt(init, i, start);
      SliceOfFront(p, icons[last].data, start, start + |icons[i].data|);
    } else {
      assert icons[..i] == init;
      SliceOfBack(p, icons[last].data, start, start + |icons[i].data|);
    }
  }

  /** The three fields of a header, sliced back out. */
  lemma HeaderSlices(h: seq<byte>, a: seq<byte>, b: seq<byte>, c: seq<byte>)
    requires |a| == 2 && |b| == 2 && |c| == 2 && h == a + b + c
    ensures h[0..2] == a && h[2..4] == b && h[4..6] == c
  {
    assert h[0..2] == a;
    assert h[2..4] == b;
    assert h[4..6] == c;
  }

  /** The header reads back as reserved 0, type 1 and the icon count. */
  lemma HeaderRoundTrip(count: nat)
    requires count <= MaxIcons
    ensures var h := Header(count);
      DecodeLE(h[0..2]) == 0 && DecodeLE(h[2..4]) == 1 && DecodeLE(h[4..6]) == count
  {
    HeaderSlices(Header(count), U16LE(0), U16LE(1), U16LE(count));
    assert Pow256(2) == 65536;
    DecodeU16LE(0);
    DecodeU16LE(1);
    DecodeU16LE(count);
  }

  /** A successful `build_ico` starts with a header announcing an icon
      resource with one image per icon. */
  lemma BuildIcoHeader(icons: seq<Icon>, out: seq<byte>)
    requires BuildIcoSpec(icons) == Ok(out)
    ensures |out| >= 6
    ensures DecodeLE(out[0..2]) == 0 && DecodeLE(out[2..4]) == 1 && DecodeLE(out[4..6]) == |icons|
  {
    var n := |icons|;
    BuildIcoParts(icons, out);
    var h, rest := Header(n), Directory(icons, 6 + 16 * n) + Payloads(icons);
    assert out == h + rest;
    SliceOfFront(h, rest, 0, 2);
    SliceOfFront(h, rest, 2, 4);
    SliceOfFront(h, rest, 4, 6);
    HeaderRoundTrip(n);
  }

  /** The output is the header, one entry per icon and all the images. */
  lemma BuildIcoLength(icons: seq<Icon>, out: seq<byte>)
    requires BuildIcoSpec(icons) == Ok(out)
    ensures |out| == 6 + 16 * |icons| + TotalLength(icons)
  {
    BuildIcoOutcome(icons);
  }

  /** After the directory come the images, in input order. */
  lemma BuildIcoPayloads(icons: seq<Icon>, out: seq<byte>)
    requires BuildIcoSpec(icons) == Ok(out)
    ensures 6 + 16 * |icons| <= |out| && out[6 + 16 * |icons|..] == Payloads(icons)
  {
    BuildIcoParts(icons, out);
    SliceParts(out, Header(|icons|), Directory(icons, 6 + 16 * |icons|), Payloads(icons), 6, 6 + 16 * |icons|);
  }

  /** The bytes of entry i of a successful `build_ico`. */
  lemma BuildIcoEntryBytes(icons: seq<Icon>, out: seq<byte>, i: nat)
    requires BuildIcoSpec(icons) == Ok(out) && i < |icons|
    ensures 6 + 16 * i + 16 <= |out|
    ensures icons[i].size <= MaxIconSize
    ensures out[6 + 16 * i..6 + 16 * i + 16] == IconEntry(icons[i], ImageOffset(icons, i))
  {
    var base := 6 + 16 * |icons|;
    BuildIcoParts(icons, out);
    SliceOfMiddle(Header(|icons|), Directory(icons, base), Payloads(icons),
                  16 * i, 16 * i + 16, 6 + 16 * i, 6 + 16 * i + 16);
    DirectoryAt(icons, base, i, ImageOffset(icons, i));
  }

  /** Entry i of a successful `build_ico` reads back as the icon's side
      length (256 written as 0), no palette, one plane, 32 bits per pixel,
      the image's length and the offset just past the images before it. */
  lemma BuildIcoEntry(icons: seq<Icon>, out: seq<byte>, i: nat)
    requires BuildIcoSpec(icons) == Ok(out) && i < |icons|
    ensures 6 + 16 * i + 16 <= |out|
    ensures ReadEntry(out[6 + 16 * i..6 + 16 * i + 16])
         == DirEntry(SizeByte(icons[i].size), SizeByte(icons[i].size), 0, 0, 1, 32,
                     |icons[i].data|, ImageOffset(icons, i))
  {
    var base := 6 + 16 * |icons|;
    BuildIcoOutcome(icons);
    FirstProblemNone(icons, base);
    assert IconFits(icons, base, i);
    BuildIcoEntryBytes(icons, out, i);
    ReadEntryRoundTrip(SizeByte(icons[i].size), SizeByte(icons[i].size), |icons[i].data|, ImageOffset(icons, i));
  }

  /** The bytes that entry i points at are icon i's image. */
  lemma BuildIcoImage(icons: seq<Icon>, out: seq<byte>, i: nat)
    requires BuildIcoSpec(icons) == Ok(out) && i < |icons|
    ensures ImageOffset(icons, i) + |icons[i].data| <= |out|
    ensures out[ImageOffset(icons, i)..ImageOffset(icons, i) + |icons[i].data|] == icons[i].data
  {
    var base := 6 + 16 * |icons|;
    var start := TotalLength(icons[..i]);
    BuildIcoPayloads(icons, out);
    PayloadAt(icons, i, start);
    SliceOfSuffix(out, base, start, start + |icons[i].data|,
                  ImageOffset(icons, i), ImageOffset(icons, i) + |icons[i].data|);
  }
}
