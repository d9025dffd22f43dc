/** `storeImage`, `storeImagePNG` and the file part of `storeParamTxt`
    (src/image_utils.cpp). The PNG library calls are replaced by a write
    plan: the path, the header fields, the byte-swap switch and the offsets
    at which the rows are read. */
module ImageStore {
  import opened Common
  import opened Gpio
  import FileNames

  /** The file system as the code sees it: the names an input stream can
      open, and the names `fopen(…, "wb")` or an output stream cannot create. */
  datatype Disk = Disk(existing: set<string>, unwritable: set<string>)

  /** One image of the stream, without its pixel bytes. */
  datatype Image = Image(
    encoding: string,
    width: nat,
    height: nat,
    step: nat,          // bytes from the start of one row to the next
    isBigEndian: bool,
    gpios: Gpios)

  /** A disparity image; its calibration numbers only feed the text body of
      the parameter file, which is not modelled. */
  datatype DisparityImage = DisparityImage(image: Image)

  /** The value of an `ImgFmt`: `PNG` is its only enumerator. Any other value
      can only come from a cast and reaches the `default` arm of the switch. */
  type ImgFmt = int
  const PNG: ImgFmt := 0

  /** What `storeImagePNG` hands to libpng for one file. */
  datatype PngWrite = PngWrite(
    path: string,
    width: nat,
    height: nat,
    bitDepth: nat,
    swapBytes: bool,         // png_set_swap was called
    rowOffsets: seq<nat>)    // where each png_write_row reads, from the start of the data

  /** The name `storeImage` returns, the file it wrote if any, and the disk after. */
  datatype Stored = Stored(name: string, write: Option<PngWrite>, disk: Disk)

  /** The name `storeParamTxt` chose, whether the stream could create it, and the disk after. */
  datatype SideFile = SideFile(path: string, created: bool, disk: Disk)

  /** The row pointer of the write loop: it starts at `start` and advances by
      `step` after each of `rows` rows. */
  function RowOffsets(start: nat, rows: nat, step: nat): (offs: seq<nat>)
    ensures |offs| == rows
    ensures forall k :: 0 <= k < rows ==> offs[k] == start + k * step
    decreases rows
  {
    if rows == 0 then []
    else
      var rest := RowOffsets(start + step, rows - 1, step);
      assert forall k :: 1 <= k < rows ==> ([start] + rest)[k] == rest[k - 1];
      [start] + rest
  }

  /** A successful write creates the file and changes nothing else. */
  function Create(disk: Disk, path: string): (d: Disk)
    ensures d.existing == disk.existing + {path} && d.unwritable == disk.unwritable
  {
    disk.(existing := disk.existing + {path})
  }

  /** One branch of `storeImagePNG`: resolve `<name>.png`, open it, write the
      header and the rows. */
  function WritePng(name: string, image: Image, bitDepth: nat, swapBytes: bool, disk: Disk): Result<Stored> {
    var path := FileNames.EnsureNewFileName(name + ".png", disk.existing);
    if path in disk.unwritable then Err(CannotStore(path))
    else
      var plan := PngWrite(path, image.width, image.height, bitDepth, swapBytes,
                           RowOffsets(0, image.height, image.step));
      Ok(Stored(path, Some(plan), Create(disk, path)))
  }

  predicate SupportedEncoding(encoding: string) {
    encoding == "mono8" || encoding == "mono16"
  }

  /** `storeImagePNG(name, image)`: 8-bit grey for "mono8", 16-bit grey for
      "mono16" with the samples swapped unless they are big-endian already;
      any other encoding opens nothing and returns "" without an error. */
  function StoreImagePng(name: string, image: Image, disk: Disk): (r: Result<Stored>)
    ensures !SupportedEncoding(image.encoding) ==> r == Ok(Stored("", None, disk))
    ensures SupportedEncoding(image.encoding) ==>
      var path := FileNames.EnsureNewFileName(name + ".png", disk.existing);
      if path in disk.unwritable then r == Err(CannotStore(path))
      else
        && r.Ok? && r.value.name == path && r.value.write.Some?
        && r.value.disk == Create(disk, path)
        && var w := r.value.write.value;
           && w.path == path
           && w.width == image.width && w.height == image.height
           && (w.bitDepth == 8 <==> image.encoding == "mono8")
           && (w.bitDepth == 16 <==> image.encoding == "mono16")
           && (w.swapBytes <==> image.encoding == "mono16" && !image.isBigEndian)
           && |w.rowOffsets| == image.height
           && forall k :: 0 <= k < image.height ==> w.rowOffsets[k] == k * image.step
  {
    if image.encoding == "mono8" then WritePng(name, image, 8, false, disk)
    else if image.encoding == "mono16" then WritePng(name, image, 16, !image.isBigEndian, disk)
    else Ok(Stored("", None, disk))
  }

  /** `storeImage(prefix, fmt, image)`: the GPIO suffix goes on the prefix,
      then the format switch; without PNG support compiled in, or for a
      format value that is not `PNG`, it throws before any name is resolved. */
  function StoreImage(prefix: string, fmt: ImgFmt, image: Image, pngCompiledIn: bool, disk: Disk): (r: Result<Stored>)
    ensures fmt != PNG ==> r == Err(NoFormatCompiledIn)
    ensures fmt == PNG && !pngCompiledIn ==> r == Err(PngNotCompiledIn)
    ensures fmt == PNG && pngCompiledIn ==> r == StoreImagePng(prefix + GpioSuffix(image.gpios), image, disk)
    ensures r.Ok? ==> r.value.disk == if r.value.write.Some? then Create(disk, r.value.name) else disk
  {
    var name := prefix + GpioSuffix(image.gpios);
    if fmt == PNG then
      if pngCompiledIn then StoreImagePng(name, image, disk) else Err(PngNotCompiledIn)
    else
      Err(NoFormatCompiledIn)
  }

  /** The name `storeParamTxt` opens: the prefix, the GPIO suffix of the
      disparity image and "_param.txt", made unique. An output stream that
      cannot be opened is not reported; the file is then simply missing. */
  function StoreParamTxt(prefix: string, disp: DisparityImage, disk: Disk): (f: SideFile)
    ensures f.path == FileNames.EnsureNewFileName(prefix + GpioSuffix(disp.image.gpios) + "_param.txt", disk.existing)
    ensures f.created <==> f.path !in disk.unwritable
    ensures f.disk == if f.created then Create(disk, f.path) else disk
  {
    var path := FileNames.EnsureNewFileName(prefix + GpioSuffix(disp.image.gpios) + "_param.txt", disk.existing);
    if path in disk.unwritable then SideFile(path, false, disk)
    else SideFile(path, true, Create(disk, path))
  }

  /** The stored file name is the prefix and the GPIO suffix, followed by
      "_<n>.png", by ".png", or (all 99 candidates used) by nothing. */
  lemma StoredNameExtendsPrefix(prefix: string, image: Image, pngCompiledIn: bool, disk: Disk)
    requires StoreImage(prefix, PNG, image, pngCompiledIn, disk).Ok?
    requires StoreImage(prefix, PNG, image, pngCompiledIn, disk).value.write.Some?
    ensures var path := StoreImage(prefix, PNG, image, pngCompiledIn, disk).value.name;
            var stem := prefix + GpioSuffix(image.gpios);
            && stem <= path
            && (path == stem + ".png" || path == stem ||
                exists n :: 1 <= n < FileNames.ProbeLimit && path == FileNames.Candidate(FileNames.NameParts(stem, ".png"), n))
  {
    StoredNameIsResolved(prefix, image, pngCompiledIn, disk);
    var path := FileNames.ResolvedKeepsBase(prefix + GpioSuffix(image.gpios), ".png", disk.existing);
  }

  lemma StoredNameIsResolved(prefix: string, image: Image, pngCompiledIn: bool, disk: Disk)
    requires StoreImage(prefix, PNG, image, pngCompiledIn, disk).Ok?
    requires StoreImage(prefix, PNG, image, pngCompiledIn, disk).value.write.Some?
    ensures StoreImage(prefix, PNG, image, pngCompiledIn, disk).value.name
            == FileNames.EnsureNewFileName(prefix + GpioSuffix(image.gpios) + ".png", disk.existing)
  {
    assert StoreImage(prefix, PNG, image, pngCompiledIn, disk) == StoreImagePng(prefix + GpioSuffix(image.gpios), image, disk);
  }

  /** A stored image never replaces an existing file, unless all 99 numbered
      names were used already. */
  lemma StoreImageFresh(prefix: string, image: Image, pngCompiledIn: bool, disk: Disk)
    requires StoreImage(prefix, PNG, image, pngCompiledIn, disk).Ok?
    requires StoreImage(prefix, PNG, image, pngCompiledIn, disk).value.write.Some?
    ensures var path := StoreImage(prefix, PNG, image, pngCompiledIn, disk).value.name;
            var name := prefix + GpioSuffix(image.gpios) + ".png";
            path !in disk.existing || FileNames.AllTaken(FileNames.SplitName(name), disk.existing)
  {
  }

  /** An unsupported pixel encoding is not an error, although the header
      promises one: nothing is opened, nothing is created, the name is "". */
  lemma UnsupportedEncodingIsSilent(prefix: string, image: Image, disk: Disk)
    requires !SupportedEncoding(image.encoding)
    ensures StoreImage(prefix, PNG, image, true, disk) == Ok(Stored("", None, disk))
  {
  }

  /** With a row step of at least one row's bytes, the rows read never
      overlap and come in increasing order: padding at the end of a row is skipped. */
  lemma {:induction false} RowsDisjoint(rows: nat, step: nat, rowBytes: nat)
    requires rowBytes <= step
    ensures var offs := RowOffsets(0, rows, step);
            forall k, l :: 0 <= k < l < rows ==> offs[k] + rowBytes <= offs[l]
  {
    var offs := RowOffsets(0, rows, step);
    forall k, l | 0 <= k < l < rows
      ensures offs[k] + rowBytes <= offs[l]
    {
      StepGap(k, l, step);
    }
  }

  lemma StepGap(k: nat, l: nat, step: nat)
    requires k < l
    ensures k * step + step <= l * step
  {
    assert l * step == k * step + (l - k) * step;
    assert (l - k) * step == step + (l - k - 1) * step;
  }

  /** The parameter file's name is the prefix, the GPIO suffix and "_param",
      followed by ".txt", "_<n>.txt" or (all 99 candidates used) nothing. */
  lemma ParamNameExtendsPrefix(prefix: string, disp: DisparityImage, disk: Disk)
    ensures var path := StoreParamTxt(prefix, disp, disk).path;
            var stem := prefix + GpioSuffix(disp.image.gpios) + "_param";
            && stem <= path
            && (path == stem + ".txt" || path == stem ||
                exists n :: 1 <= n < FileNames.ProbeLimit && path == FileNames.Candidate(FileNames.NameParts(stem, ".txt"), n))
  {
    var stem := prefix + GpioSuffix(disp.image.gpios) + "_param";
    assert prefix + GpioSuffix(disp.image.gpios) + "_param.txt" == stem + ".txt";
    var path := FileNames.ResolvedKeepsBase(stem, ".txt", disk.existing);
  }

  /** The parameter file never replaces an existing file, unless all 99
      numbered names were used already. */
  lemma ParamFileFresh(prefix: string, disp: DisparityImage, disk: Disk)
    ensures var path := StoreParamTxt(prefix, disp, disk).path;
            var name := prefix + GpioSuffix(disp.image.gpios) + "_param.txt";
            path !in disk.existing || FileNames.AllTaken(FileNames.SplitName(name), disk.existing)
  {
  }
}
