/** `storeImageSet` (src/image_utils.cpp): store every image a bundle holds,
    in the fixed order left, right, disparity (with its parameter file),
    confidence, error, under one time-stamped prefix. */
module ImageSets {
  import opened Common
  import opened Gpio
  import opened ImageStore
  import Decimal
  import FileNames

  /** The bundle's time stamp. */
  datatype Timestamp = Timestamp(sec: int, nsec: int)

  /** One bundle; `None` stands for a channel whose `has_*` flag is false. */
  datatype ImageSet = ImageSet(
    timestamp: Timestamp,
    left: Option<Image>,
    right: Option<Image>,
    disparity: Option<DisparityImage>,
    confidence: Option<Image>,
    error: Option<Image>)

  /** `sec << "." << setfill('0') << setw(9) << nsec`. */
  function TimestampString(t: Timestamp): string {
    Join(Decimal.IntToString(t.sec), Decimal.PadLeft(Decimal.IntToString(t.nsec), 9, '0'))
  }

  /** `r` is the seconds' digits, a dot, and nine digits of nanoseconds. */
  predicate ReadsBack(r: string, sec: int, nsec: int) {
    var n := |r| - 10;
    && 0 <= n && r[n] == '.'
    && Decimal.AllDigits(r[..n]) && Decimal.Value(r[..n]) == sec
    && Decimal.AllDigits(r[n + 1..]) && Decimal.Value(r[n + 1..]) == nsec
  }

  /** For a time stamp in range the seconds read back from the digits before
      the dot and the nanoseconds from the nine digits after it. */
  lemma TimestampFields(t: Timestamp)
    ensures t.sec >= 0 && 0 <= t.nsec < 1000000000 ==> ReadsBack(TimestampString(t), t.sec, t.nsec)
  {
    if t.sec >= 0 && 0 <= t.nsec < 1000000000 {
      var a := Decimal.IntToString(t.sec);
      var b := Decimal.PadLeft(Decimal.IntToString(t.nsec), 9, '0');
      NanosecondField(t.nsec);
      assert a == Decimal.NatToString(t.sec);
      JoinFields(a, b, t.sec, t.nsec);
    }
  }

  /** Reading back a joined pair whose second field has nine digits. */
  lemma JoinFields(a: string, b: string, x: nat, y: nat)
    requires Decimal.AllDigits(a) && Decimal.Value(a) == x
    requires |b| == 9 && Decimal.AllDigits(b) && Decimal.Value(b) == y
    ensures ReadsBack(Join(a, b), x, y)
  {
    var r := Join(a, b);
    assert |r| - 10 == |a|;
  }

  /** Two fields with a dot between them. */
  function Join(a: string, b: string): (r: string)
    ensures |r| == |a| + 1 + |b| && r[..|a|] == a && r[|a|] == '.' && r[|a| + 1..] == b
  {
    var r := a + "." + b;
    assert r[..|a|] == a;
    assert r[|a| + 1..] == b;
    r
  }

  /** Distinct time stamps give distinct strings, negative fields included. */
  lemma TimestampInjective(t1: Timestamp, t2: Timestamp)
    requires TimestampString(t1) == TimestampString(t2)
    ensures t1 == t2
  {
    var a1, a2 := Decimal.IntToString(t1.sec), Decimal.IntToString(t2.sec);
    var n1, n2 := Decimal.IntToString(t1.nsec), Decimal.IntToString(t2.nsec);
    var b1, b2 := Decimal.PadLeft(n1, 9, '0'), Decimal.PadLeft(n2, 9, '0');
    JoinInjective(a1, b1, a2, b2);
    Decimal.IntToStringInjective(t1.sec, t2.sec);
    Decimal.PadLeftInjective(n1, n2, 9, '0');
    Decimal.IntToStringInjective(t1.nsec, t2.nsec);
  }

  /** A dot-free first field is read back up to the first dot. */
  lemma JoinInjective(a1: string, b1: string, a2: string, b2: string)
    requires forall i :: 0 <= i < |a1| ==> a1[i] != '.'
    requires forall i :: 0 <= i < |a2| ==> a2[i] != '.'
    requires Join(a1, b1) == Join(a2, b2)
    ensures a1 == a2 && b1 == b2
  {
    var r := Join(a1, b1);
    assert r[|a1|] == '.' && r[|a2|] == '.';
    assert forall i :: 0 <= i < |a1| ==> r[i] == a1[i];
    assert forall i :: 0 <= i < |a2| ==> r[i] == a2[i];
  }

  /** `path + "image_" + <time stamp> + "_"`; the channel name follows it. */
  function SetPrefix(path: string, t: Timestamp): (r: string)
    ensures |r| > |path| && r[..|path|] == path && r[|r| - 1] == '_'
  {
    var tail := "image_" + TimestampString(t) + "_";
    assert tail[|tail| - 1] == '_';
    var r := path + tail;
    assert r[..|path|] == path && r[|r| - 1] == tail[|tail| - 1];
    r
  }

  /** Bundles with distinct time stamps, stored under the same path, get
      distinct prefixes. */
  lemma SetPrefixInjective(path: string, t1: Timestamp, t2: Timestamp)
    requires SetPrefix(path, t1) == SetPrefix(path, t2)
    ensures t1 == t2
  {
    var ts1, ts2 := TimestampString(t1), TimestampString(t2);
    var tail1, tail2 := "image_" + ts1 + "_", "image_" + ts2 + "_";
    assert (path + tail1)[|path|..] == tail1 && (path + tail2)[|path|..] == tail2;
    Unwrap(ts1);
    Unwrap(ts2);
    TimestampInjective(t1, t2);
  }

  /** The time stamp sits between "image_" and the final '_'. */
  lemma Unwrap(ts: string)
    ensures var tail := "image_" + ts + "_";
            |tail| == |ts| + 7 && tail[6..|tail| - 1] == ts
  {
    var tail := "image_" + ts + "_";
    assert tail[6..|tail| - 1] == ts;
  }

  /** The five channels of a bundle, in the order they are stored. */
  datatype ChannelKind = Left | Right | Disparity | Confidence | Error {
    /** What goes between the prefix and the GPIO suffix. */
    function Suffix(): string {
      match this
      case Left => "left"
      case Right => "right"
      case Disparity => "disparity"
      case Confidence => "confidence"
      case Error => "error"
    }

    /** The position in the storing order. */
    function Rank(): nat {
      match this
      case Left => 0
      case Right => 1
      case Disparity => 2
      case Confidence => 3
      case Error => 4
    }
  }

  /** One image to store, and whether a parameter file follows it. */
  datatype Channel = Channel(kind: ChannelKind, image: Image, withParams: bool)

  function Slot(kind: ChannelKind, image: Option<Image>): seq<Channel> {
    match image
    case Some(i) => [Channel(kind, i, false)]
    case None => []
  }

  function DisparitySlot(disp: Option<DisparityImage>): seq<Channel> {
    match disp
    case Some(d) => [Channel(Disparity, d.image, true)]
    case None => []
  }

  function Kinds(chs: seq<Channel>): (ks: seq<ChannelKind>)
    ensures |ks| == |chs| && forall i :: 0 <= i < |chs| ==> ks[i] == chs[i].kind
  {
    if |chs| == 0 then [] else [chs[0].kind] + Kinds(chs[1..])
  }

  /** The sequence of `if (image_set.has_…())` tests: the channels whose flag
      is set, in the fixed order. */
  function PresentChannels(s: ImageSet): (chs: seq<Channel>)
    ensures forall i :: 0 <= i < |chs| ==> (chs[i].withParams <==> chs[i].kind == Disparity)
  {
    Slot(Left, s.left) + Slot(Right, s.right) + DisparitySlot(s.disparity)
      + Slot(Confidence, s.confidence) + Slot(Error, s.error)
  }

  /** A file the bundle produced. */
  datatype Record = ImageFile(kind: ChannelKind, path: string) | ParamFile(path: string)

  /** Where storing stopped: the disk, the files created in order, and the
      exception that ended the bundle, if one did. */
  datatype Progress = Progress(disk: Disk, files: seq<Record>, failure: Option<StoreError>)

  function Paths(files: seq<Record>): (ps: set<string>)
    ensures forall i :: 0 <= i < |files| ==> files[i].path in ps
    ensures forall p :: p in ps ==> exists i :: 0 <= i < |files| && files[i].path == p
  {
    if |files| == 0 then {} else {files[0].path} + Paths(files[1..])
  }

  /** The channel labels of the image files, in order. */
  function ImageChannels(files: seq<Record>): seq<ChannelKind> {
    if |files| == 0 then []
    else (if files[0].ImageFile? then [files[0].kind] else []) + ImageChannels(files[1..])
  }

  function ParamCount(files: seq<Record>): nat {
    if |files| == 0 then 0 else (if files[0].ParamFile? then 1 else 0) + ParamCount(files[1..])
  }

  /** One channel: `storeImage(prefix + suffix, PNG, image)` and, for the
      disparity image, `storeParamTxt(prefix + suffix, …)` after it. */
  function StoreChannel(prefix: string, c: Channel, pngCompiledIn: bool, disk: Disk): (p: Progress)
    ensures p.disk.unwritable == disk.unwritable
    ensures p.disk.existing == disk.existing + Paths(p.files)
    ensures p.failure.Some? ==> p.files == []
    ensures p.failure.Some? && p.failure.value.CannotStore? ==> p.failure.value.path in disk.unwritable
  {
    match StoreImage(prefix + c.kind.Suffix(), PNG, c.image, pngCompiledIn, disk)
    case Err(e) => Progress(disk, [], Some(e))
    case Ok(s) =>
      var images := if s.write.Some? then [ImageFile(c.kind, s.name)] else [];
      if c.withParams then
        var f := StoreParamTxt(prefix + c.kind.Suffix(), DisparityImage(c.image), s.disk);
        Progress(f.disk, images + (if f.created then [ParamFile(f.path)] else []), None)
      else
        Progress(s.disk, images, None)
  }

  /** The channels in order, each on the disk the previous one left; the first
      exception ends the bundle and the files created before it stay. */
  function StoreChannels(prefix: string, chs: seq<Channel>, pngCompiledIn: bool, disk: Disk): (p: Progress)
    ensures p.disk.unwritable == disk.unwritable
    ensures p.disk.existing == disk.existing + Paths(p.files)
    ensures !pngCompiledIn && |chs| > 0 ==> p == Progress(disk, [], Some(PngNotCompiledIn))
    ensures p.failure.Some? && p.failure.value.CannotStore? ==> p.failure.value.path in disk.unwritable
    decreases |chs|
  {
    if |chs| == 0 then Progress(disk, [], None)
    else
      var first := StoreChannel(prefix, chs[0], pngCompiledIn, disk);
      if first.failure.Some? then first
      else
        var rest := StoreChannels(prefix, chs[1..], pngCompiledIn, first.disk);
        PathsAppend(first.files, rest.files);
        Progress(rest.disk, first.files + rest.files, rest.failure)
  }

  /** `storeImageSet(path, fmt, image_set)`. The format argument is not used:
      every channel is stored as PNG. */
  function StoreImageSet(path: string, fmt: ImgFmt, s: ImageSet, pngCompiledIn: bool, disk: Disk): (p: Progress)
    ensures p.disk.unwritable == disk.unwritable
    ensures p.disk.existing == disk.existing + Paths(p.files)
    ensures p.failure.Some? && p.failure.value.CannotStore? ==> p.failure.value.path in disk.unwritable
  {
    StoreChannels(SetPrefix(path, s.timestamp), PresentChannels(s), pngCompiledIn, disk)
  }

  lemma {:induction false} PathsAppend(a: seq<Record>, b: seq<Record>)
    ensures Paths(a + b) == Paths(a) + Paths(b)
  {
    if |a| > 0 {
      assert (a + b)[1..] == a[1..] + b;
      PathsAppend(a[1..], b);
    } else {
      assert a + b == b;
    }
  }

  lemma {:induction false} KindsAppend(a: seq<Channel>, b: seq<Channel>)
    ensures Kinds(a + b) == Kinds(a) + Kinds(b)
  {
    forall i | 0 <= i < |a + b| ensures Kinds(a + b)[i] == (Kinds(a) + Kinds(b))[i] {
      if i < |a| {
        assert (a + b)[i] == a[i];
      } else {
        assert (a + b)[i] == b[i - |a|];
      }
    }
  }

  /** A channel kind if its flag is set. */
  function Opt(k: ChannelKind, present: bool): seq<ChannelKind> {
    if present then [k] else []
  }

  /** The storing order. */
  const Order: seq<ChannelKind> := [Left, Right, Disparity, Confidence, Error]

  /** Whether a channel's flag is set. */
  predicate Has(s: ImageSet, k: ChannelKind) {
    match k
    case Left => s.left.Some?
    case Right => s.right.Some?
    case Disparity => s.disparity.Some?
    case Confidence => s.confidence.Some?
    case Error => s.error.Some?
  }

  /** The flagged kinds among the first n of the storing order. */
  function FlaggedUpTo(s: ImageSet, n: nat): seq<ChannelKind>
    requires n <= |Order|
  {
    if n == 0 then [] else FlaggedUpTo(s, n - 1) + Opt(Order[n - 1], Has(s, Order[n - 1]))
  }

  /** The kinds of the channels whose flag is set, in the fixed order. */
  function Flagged(s: ImageSet): seq<ChannelKind> {
    FlaggedUpTo(s, |Order|)
  }

  lemma PresentChannelsKinds(s: ImageSet)
    ensures Kinds(PresentChannels(s)) == Flagged(s)
  {
    var a := Slot(Left, s.left);
    var b := Slot(Right, s.right);
    var c := DisparitySlot(s.disparity);
    var d := Slot(Confidence, s.confidence);
    var e := Slot(Error, s.error);
    KindsAppend(a, b);
    KindsAppend(a + b, c);
    KindsAppend(a + b + c, d);
    KindsAppend(a + b + c + d, e);
    SlotKinds(Left, s.left);
    SlotKinds(Right, s.right);
    SlotKinds(Confidence, s.confidence);
    SlotKinds(Error, s.error);
    DisparitySlotKinds(s.disparity);
    FlaggedUnfold(s);
  }

  lemma FlaggedUnfold(s: ImageSet)
    ensures Flagged(s) == Opt(Left, s.left.Some?) + Opt(Right, s.right.Some?) + Opt(Disparity, s.disparity.Some?)
                          + Opt(Confidence, s.confidence.Some?) + Opt(Error, s.error.Some?)
  {
    assert FlaggedUpTo(s, 1) == [] + Opt(Left, s.left.Some?);
    assert FlaggedUpTo(s, 2) == FlaggedUpTo(s, 1) + Opt(Right, s.right.Some?);
    assert FlaggedUpTo(s, 3) == FlaggedUpTo(s, 2) + Opt(Disparity, s.disparity.Some?);
    assert FlaggedUpTo(s, 4) == FlaggedUpTo(s, 3) + Opt(Confidence, s.confidence.Some?);
  }

  lemma SlotKinds(kind: ChannelKind, image: Option<Image>)
    ensures Kinds(Slot(kind, image)) == if image.Some? then [kind] else []
  {
  }

  lemma DisparitySlotKinds(disp: Option<DisparityImage>)
    ensures Kinds(DisparitySlot(disp)) == if disp.Some? then [Disparity] else []
  {
  }

  ghost predicate Increasing(ks: seq<ChannelKind>) {
    forall i, j :: 0 <= i < j < |ks| ==> ks[i].Rank() < ks[j].Rank()
  }

  ghost predicate RanksBelow(ks: seq<ChannelKind>, bound: nat) {
    forall i :: 0 <= i < |ks| ==> ks[i].Rank() < bound
  }

  /** Appending a channel of higher rank than all before keeps the order. */
  lemma AppendHigher(ks: seq<ChannelKind>, k: ChannelKind, present: bool)
    requires Increasing(ks) && RanksBelow(ks, k.Rank())
    ensures Increasing(ks + Opt(k, present)) && RanksBelow(ks + Opt(k, present), k.Rank() + 1)
  {
    var r := ks + Opt(k, present);
    forall i, j | 0 <= i < j < |r| ensures r[i].Rank() < r[j].Rank() {
      if j >= |ks| {
        assert r[j] == k;
        assert r[i] == ks[i];
      }
    }
  }

  /** The stored channels come in the order left, right, disparity,
      confidence, error, each at most once. */
  lemma PresentChannelsOrdered(s: ImageSet)
    ensures Increasing(Kinds(PresentChannels(s)))
  {
    PresentChannelsKinds(s);
    FlaggedOrdered(s);
  }

  lemma {:induction false} FlaggedUpToOrdered(s: ImageSet, n: nat)
    requires n <= |Order|
    ensures Increasing(FlaggedUpTo(s, n)) && RanksBelow(FlaggedUpTo(s, n), n)
  {
    if n > 0 {
      FlaggedUpToOrdered(s, n - 1);
      assert Order[n - 1].Rank() == n - 1;
      AppendHigher(FlaggedUpTo(s, n - 1), Order[n - 1], Has(s, Order[n - 1]));
    }
  }

  lemma FlaggedOrdered(s: ImageSet)
    ensures Increasing(Flagged(s))
  {
    FlaggedUpToOrdered(s, |Order|);
  }

  lemma InAppend(ks: seq<ChannelKind>, x: ChannelKind, present: bool, k: ChannelKind)
    ensures k in ks + Opt(x, present) <==> k in ks || (present && x == k)
  {
  }

  /** A channel is stored if and only if its flag is set. */
  lemma PresentChannelsExact(s: ImageSet, k: ChannelKind)
    ensures k in Kinds(PresentChannels(s)) <==> Has(s, k)
  {
    PresentChannelsKinds(s);
    FlaggedExact(s, k);
  }

  lemma {:induction false} FlaggedUpToExact(s: ImageSet, n: nat, k: ChannelKind)
    requires n <= |Order|
    ensures k in FlaggedUpTo(s, n) <==> k.Rank() < n && Has(s, k)
  {
    if n > 0 {
      FlaggedUpToExact(s, n - 1, k);
      InAppend(FlaggedUpTo(s, n - 1), Order[n - 1], Has(s, Order[n - 1]), k);
      assert Order[k.Rank()] == k;
    }
  }

  lemma FlaggedExact(s: ImageSet, k: ChannelKind)
    ensures k in Flagged(s) <==> Has(s, k)
  {
    FlaggedUpToExact(s, |Order|, k);
  }

  function ParamsIn(chs: seq<Channel>): nat {
    if |chs| == 0 then 0 else (if chs[0].withParams then 1 else 0) + ParamsIn(chs[1..])
  }

  lemma ImageChannelsAppend(a: seq<Record>, b: seq<Record>)
    ensures ImageChannels(a + b) == ImageChannels(a) + ImageChannels(b)
    ensures ParamCount(a + b) == ParamCount(a) + ParamCount(b)
  {
    ImageKindsAppend(a, b);
    ParamCountAppend(a, b);
  }

  lemma {:induction false} ImageKindsAppend(a: seq<Record>, b: seq<Record>)
    ensures ImageChannels(a + b) == ImageChannels(a) + ImageChannels(b)
  {
    if |a| == 0 {
      assert a + b == b;
    } else {
      assert (a + b)[0] == a[0];
      assert (a + b)[1..] == a[1..] + b;
      ImageKindsAppend(a[1..], b);
      var h := if a[0].ImageFile? then [a[0].kind] else [];
      assert ImageChannels(a + b) == h + (ImageChannels(a[1..]) + ImageChannels(b));
      assert ImageChannels(a) == h + ImageChannels(a[1..]);
    }
  }

  lemma {:induction false} ParamCountAppend(a: seq<Record>, b: seq<Record>)
    ensures ParamCount(a + b) == ParamCount(a) + ParamCount(b)
  {
    if |a| == 0 {
      assert a + b == b;
    } else {
      assert (a + b)[0] == a[0];
      assert (a + b)[1..] == a[1..] + b;
      ParamCountAppend(a[1..], b);
    }
  }

  /** One channel whose image can be written: its image file first, then,
      for the disparity image, the parameter file on the disk after it. */
  lemma StoreChannelWrites(prefix: string, c: Channel, disk: Disk)
    requires SupportedEncoding(c.image.encoding)
    requires FileNames.EnsureNewFileName(prefix + c.kind.Suffix() + GpioSuffix(c.image.gpios) + ".png", disk.existing)
             !in disk.unwritable
    ensures var file := FileNames.EnsureNewFileName(prefix + c.kind.Suffix() + GpioSuffix(c.image.gpios) + ".png", disk.existing);
            var f := StoreParamTxt(prefix + c.kind.Suffix(), DisparityImage(c.image), Create(disk, file));
            StoreChannel(prefix, c, true, disk) ==
              if c.withParams then
                Progress(f.disk, [ImageFile(c.kind, file)] + (if f.created then [ParamFile(f.path)] else []), None)
              else
                Progress(Create(disk, file), [ImageFile(c.kind, file)], None)
  {
    var file := FileNames.EnsureNewFileName(prefix + c.kind.Suffix() + GpioSuffix(c.image.gpios) + ".png", disk.existing);
    var r := StoreImage(prefix + c.kind.Suffix(), PNG, c.image, true, disk);
    assert r == Ok(Stored(file, r.value.write, Create(disk, file)));
  }

  /** One channel whose image is in an encoding the PNG writer skips. */
  lemma StoreChannelSkips(prefix: string, c: Channel, disk: Disk)
    requires !SupportedEncoding(c.image.encoding)
    ensures var f := StoreParamTxt(prefix + c.kind.Suffix(), DisparityImage(c.image), disk);
            StoreChannel(prefix, c, true, disk) ==
              if c.withParams then
                Progress(f.disk, if f.created then [ParamFile(f.path)] else [], None)
              else
                Progress(disk, [], None)
  {
    var r := StoreImage(prefix + c.kind.Suffix(), PNG, c.image, true, disk);
    assert r == Ok(Stored("", None, disk));
  }

  lemma StoreChannelCounts(prefix: string, c: Channel, disk: Disk)
    requires SupportedEncoding(c.image.encoding) && disk.unwritable == {}
    ensures var p := StoreChannel(prefix, c, true, disk);
            && p.failure.None? && p.disk.unwritable == {}
            && ImageChannels(p.files) == [c.kind]
            && ParamCount(p.files) == if c.withParams then 1 else 0
  {
    StoreChannelWrites(prefix, c, disk);
    var p := StoreChannel(prefix, c, true, disk);
    if c.withParams {
      var file := FileNames.EnsureNewFileName(prefix + c.kind.Suffix() + GpioSuffix(c.image.gpios) + ".png", disk.existing);
      var f := StoreParamTxt(prefix + c.kind.Suffix(), DisparityImage(c.image), Create(disk, file));
      assert f.created;
      assert p.files == [ImageFile(c.kind, file)] + [ParamFile(f.path)];
      ImageChannelsAppend([ImageFile(c.kind, file)], [ParamFile(f.path)]);
    } else {
      assert p.files[1..] == [];
    }
  }

  /** A list of one channel is stored exactly as that channel. */
  lemma StoreSingleChannel(prefix: string, c: Channel, png: bool, disk: Disk)
    ensures StoreChannels(prefix, [c], png, disk) == StoreChannel(prefix, c, png, disk)
  {
    var first := StoreChannel(prefix, c, png, disk);
    if first.failure.None? {
      assert [c][1..] == [];
      assert first.files + [] == first.files;
    }
  }

  /** When every image can be written, storing a list of channels creates one
      image file per channel, in order, and one parameter file per channel
      that asks for it. */
  lemma {:induction false} StoreChannelsComplete(prefix: string, chs: seq<Channel>, disk: Disk)
    requires disk.unwritable == {}
    requires forall i :: 0 <= i < |chs| ==> SupportedEncoding(chs[i].image.encoding)
    ensures var p := StoreChannels(prefix, chs, true, disk);
            && p.failure.None?
            && ImageChannels(p.files) == Kinds(chs)
            && ParamCount(p.files) == ParamsIn(chs)
    decreases |chs|
  {
    if |chs| > 0 {
      var first := StoreChannel(prefix, chs[0], true, disk);
      StoreChannelCounts(prefix, chs[0], disk);
      StoreChannelsComplete(prefix, chs[1..], first.disk);
      var rest := StoreChannels(prefix, chs[1..], true, first.disk);
      StoreChannelsStep(prefix, chs, true, disk);
      ImageChannelsAppend(first.files, rest.files);
      assert Kinds(chs) == [chs[0].kind] + Kinds(chs[1..]);
    }
  }

  /** After a channel that did not fail, the rest of the list is stored on
      the disk it left behind. */
  lemma StoreChannelsStep(prefix: string, chs: seq<Channel>, png: bool, disk: Disk)
    requires |chs| > 0 && StoreChannel(prefix, chs[0], png, disk).failure.None?
    ensures var first := StoreChannel(prefix, chs[0], png, disk);
            var rest := StoreChannels(prefix, chs[1..], png, first.disk);
            StoreChannels(prefix, chs, png, disk) == Progress(rest.disk, first.files + rest.files, rest.failure)
  {
  }

  /** The first channel that throws ends the bundle: the channels after it
      are never attempted, and the bundle reports that channel's exception. */
  lemma FirstFailureStops(prefix: string, c: Channel, rest: seq<Channel>, png: bool, disk: Disk)
    requires StoreChannel(prefix, c, png, disk).failure.Some?
    ensures StoreChannels(prefix, [c] + rest, png, disk) == StoreChannel(prefix, c, png, disk)
  {
    assert ([c] + rest)[0] == c;
  }

  lemma {:induction false} ParamsInAppend(a: seq<Channel>, b: seq<Channel>)
    ensures ParamsIn(a + b) == ParamsIn(a) + ParamsIn(b)
  {
    if |a| == 0 {
      assert a + b == b;
    } else {
      assert (a + b)[1..] == a[1..] + b;
      ParamsInAppend(a[1..], b);
    }
  }

  /** Only the disparity channel asks for a parameter file. */
  lemma PresentChannelsParams(s: ImageSet)
    ensures ParamsIn(PresentChannels(s)) == if s.disparity.Some? then 1 else 0
  {
    var a := Slot(Left, s.left);
    var b := Slot(Right, s.right);
    var c := DisparitySlot(s.disparity);
    var d := Slot(Confidence, s.confidence);
    var e := Slot(Error, s.error);
    ParamsInAppend(a, b);
    ParamsInAppend(a + b, c);
    ParamsInAppend(a + b + c, d);
    ParamsInAppend(a + b + c + d, e);
    assert ParamsIn(a) == 0 && ParamsIn(b) == 0 && ParamsIn(d) == 0 && ParamsIn(e) == 0;
  }

  /** Every image of a bundle can be written: the files created are one image
      per flagged channel, in the fixed order, plus one parameter file exactly
      when the disparity image is there. */
  lemma StoreImageSetComplete(path: string, fmt: ImgFmt, s: ImageSet, disk: Disk)
    requires disk.unwritable == {}
    requires forall c :: c in PresentChannels(s) ==> SupportedEncoding(c.image.encoding)
    ensures var p := StoreImageSet(path, fmt, s, true, disk);
            && p.failure.None?
            && ImageChannels(p.files) == Flagged(s)
            && ParamCount(p.files) == (if s.disparity.Some? then 1 else 0)
            && forall i :: 0 <= i < |p.files| ==> NamedAfter(SetPrefix(path, s.timestamp), s, p.files[i])
  {
    var chs := PresentChannels(s);
    assert forall i :: 0 <= i < |chs| ==> chs[i] in chs;
    StoreChannelsComplete(SetPrefix(path, s.timestamp), chs, disk);
    StoreImageSetNamed(path, fmt, s, true, disk);
    PresentChannelsKinds(s);
    PresentChannelsParams(s);
  }

  /** The format argument makes no difference: the bundle is always stored as PNG. */
  lemma StoreImageSetIgnoresFormat(path: string, f1: ImgFmt, f2: ImgFmt, s: ImageSet, png: bool, disk: Disk)
    ensures StoreImageSet(path, f1, s, png, disk) == StoreImageSet(path, f2, s, png, disk)
  {
  }

  /** Without PNG support the first flagged channel throws, before any file is created. */
  lemma StoreImageSetWithoutPng(path: string, fmt: ImgFmt, s: ImageSet, disk: Disk)
    requires s.left.Some? || s.right.Some? || s.disparity.Some? || s.confidence.Some? || s.error.Some?
    ensures StoreImageSet(path, fmt, s, false, disk) == Progress(disk, [], Some(PngNotCompiledIn))
  {
    PresentChannelsKinds(s);
  }

  /** The stem of a channel's image file: prefix, channel and GPIO suffix. */
  function ImageStem(path: string, t: Timestamp, k: ChannelKind, image: Image): string {
    SetPrefix(path, t) + k.Suffix() + GpioSuffix(image.gpios)
  }

  /** A bundle holding only a left image creates one image file and no
      parameter file. */
  lemma LeftOnly(path: string, fmt: ImgFmt, t: Timestamp, image: Image, disk: Disk)
    requires SupportedEncoding(image.encoding)
    requires FileNames.EnsureNewFileName(ImageStem(path, t, Left, image) + ".png", disk.existing) !in disk.unwritable
    ensures var file := FileNames.EnsureNewFileName(ImageStem(path, t, Left, image) + ".png", disk.existing);
            StoreImageSet(path, fmt, ImageSet(t, Some(image), None, None, None, None), true, disk)
              == Progress(Create(disk, file), [ImageFile(Left, file)], None)
  {
    var s := ImageSet(t, Some(image), None, None, None, None);
    var c := Channel(Left, image, false);
    assert PresentChannels(s) == [c];
    assert SetPrefix(path, t) + Left.Suffix() + GpioSuffix(image.gpios) == ImageStem(path, t, Left, image);
    StoreChannelWrites(SetPrefix(path, t), c, disk);
    StoreSingleChannel(SetPrefix(path, t), c, true, disk);
  }

  /** A bundle holding only a disparity image creates its image file and then
      the parameter file, whose name is resolved after the image exists. */
  lemma DisparityOnly(path: string, fmt: ImgFmt, t: Timestamp, image: Image, disk: Disk)
    requires SupportedEncoding(image.encoding) && disk.unwritable == {}
    ensures var file := FileNames.EnsureNewFileName(ImageStem(path, t, Disparity, image) + ".png", disk.existing);
            var param := FileNames.EnsureNewFileName(
              ImageStem(path, t, Disparity, image) + "_param.txt", disk.existing + {file});
            StoreImageSet(path, fmt, ImageSet(t, None, None, Some(DisparityImage(image)), None, None), true, disk)
              == Progress(Create(Create(disk, file), param), [ImageFile(Disparity, file), ParamFile(param)], None)
  {
    var s := ImageSet(t, None, None, Some(DisparityImage(image)), None, None);
    var c := Channel(Disparity, image, true);
    SingleChannelSet(path, fmt, s, c, true, disk);
    StoreChannelWithParams(SetPrefix(path, t), c, disk);
  }

  /** A channel with a parameter file, on a disk where everything can be
      written: the image file, then the parameter file resolved after it. */
  lemma StoreChannelWithParams(prefix: string, c: Channel, disk: Disk)
    requires SupportedEncoding(c.image.encoding) && disk.unwritable == {} && c.withParams
    ensures var stem := prefix + c.kind.Suffix() + GpioSuffix(c.image.gpios);
            var file := FileNames.EnsureNewFileName(stem + ".png", disk.existing);
            var param := FileNames.EnsureNewFileName(stem + "_param.txt", disk.existing + {file});
            StoreChannel(prefix, c, true, disk)
              == Progress(Create(Create(disk, file), param), [ImageFile(c.kind, file), ParamFile(param)], None)
  {
    var file := FileNames.EnsureNewFileName(prefix + c.kind.Suffix() + GpioSuffix(c.image.gpios) + ".png", disk.existing);
    StoreChannelWrites(prefix, c, disk);
    var f := StoreParamTxt(prefix + c.kind.Suffix(), DisparityImage(c.image), Create(disk, file));
    assert f.created;
  }

  /** A bundle with one flagged channel is stored as that channel alone. */
  lemma SingleChannelSet(path: string, fmt: ImgFmt, s: ImageSet, c: Channel, png: bool, disk: Disk)
    requires PresentChannels(s) == [c]
    ensures StoreImageSet(path, fmt, s, png, disk) == StoreChannel(SetPrefix(path, s.timestamp), c, png, disk)
  {
    StoreSingleChannel(SetPrefix(path, s.timestamp), c, png, disk);
  }

  /** A disparity image in an unsupported encoding is skipped without an
      error, yet its parameter file is still written. */
  lemma DisparityUnsupportedEncoding(path: string, fmt: ImgFmt, t: Timestamp, image: Image, disk: Disk)
    requires !SupportedEncoding(image.encoding) && disk.unwritable == {}
    ensures var param := FileNames.EnsureNewFileName(
              ImageStem(path, t, Disparity, image) + "_param.txt", disk.existing);
            StoreImageSet(path, fmt, ImageSet(t, None, None, Some(DisparityImage(image)), None, None), true, disk)
              == Progress(Create(disk, param), [ParamFile(param)], None)
  {
    var s := ImageSet(t, None, None, Some(DisparityImage(image)), None, None);
    var c := Channel(Disparity, image, true);
    assert PresentChannels(s) == [c];
    var prefix := SetPrefix(path, t) + Disparity.Suffix();
    assert prefix + GpioSuffix(image.gpios) == ImageStem(path, t, Disparity, image);
    StoreChannelSkips(SetPrefix(path, t), c, disk);
    StoreSingleChannel(SetPrefix(path, t), c, true, disk);
  }

  /** Storing the same left-only bundle twice: the first file takes the plain
      name, the second the name with "_1" before the extension. */
  lemma RepeatedTimestamp(path: string, fmt: ImgFmt, t: Timestamp, image: Image, disk: Disk)
    requires SupportedEncoding(image.encoding) && disk.unwritable == {}
    requires ImageStem(path, t, Left, image) + ".png" !in disk.existing
    requires ImageStem(path, t, Left, image) + "_1" + ".png" !in disk.existing
    ensures var s := ImageSet(t, Some(image), None, None, None, None);
            var first := StoreImageSet(path, fmt, s, true, disk);
            var second := StoreImageSet(path, fmt, s, true, first.disk);
            && first.files == [ImageFile(Left, ImageStem(path, t, Left, image) + ".png")]
            && second.files == [ImageFile(Left, ImageStem(path, t, Left, image) + "_1" + ".png")]
  {
    var stem := ImageStem(path, t, Left, image);
    ResolvePngTwice(stem, disk.existing);
    LeftOnlyAs(path, fmt, t, image, disk, stem + ".png");
    LeftOnlyAs(path, fmt, t, image, Create(disk, stem + ".png"), stem + "_1" + ".png");
  }

  /** `ResolveTwice` for the ".png" extension. */
  lemma ResolvePngTwice(stem: string, used: set<string>)
    requires stem + ".png" !in used && stem + "_1" + ".png" !in used
    ensures FileNames.EnsureNewFileName(stem + ".png", used) == stem + ".png"
    ensures FileNames.EnsureNewFileName(stem + ".png", used + {stem + ".png"}) == stem + "_1" + ".png"
  {
    FileNames.ResolveTwice(stem, ".png", used);
  }

  /** `LeftOnly` for a disk on which the name is known to resolve to `file`. */
  lemma LeftOnlyAs(path: string, fmt: ImgFmt, t: Timestamp, image: Image, disk: Disk, file: string)
    requires SupportedEncoding(image.encoding) && disk.unwritable == {}
    requires FileNames.EnsureNewFileName(ImageStem(path, t, Left, image) + ".png", disk.existing) == file
    ensures StoreImageSet(path, fmt, ImageSet(t, Some(image), None, None, None, None), true, disk)
              == Progress(Create(disk, file), [ImageFile(Left, file)], None)
  {
    LeftOnly(path, fmt, t, image, disk);
  }

  /** Storing the same disparity-only bundle twice: the first time the image
      and parameter files take their plain names, the second time both take
      the name with "_1" before the extension. */
  lemma RepeatedDisparity(path: string, fmt: ImgFmt, t: Timestamp, image: Image, disk: Disk)
    requires SupportedEncoding(image.encoding) && disk.unwritable == {}
    requires var stem := ImageStem(path, t, Disparity, image);
             && stem + ".png" !in disk.existing && stem + "_1" + ".png" !in disk.existing
             && stem + "_param.txt" !in disk.existing && stem + "_param_1.txt" !in disk.existing
    ensures var s := ImageSet(t, None, None, Some(DisparityImage(image)), None, None);
            var stem := ImageStem(path, t, Disparity, image);
            var first := StoreImageSet(path, fmt, s, true, disk);
            var second := StoreImageSet(path, fmt, s, true, first.disk);
            && first.files == [ImageFile(Disparity, stem + ".png"), ParamFile(stem + "_param.txt")]
            && second.files == [ImageFile(Disparity, stem + "_1" + ".png"), ParamFile(stem + "_param_1.txt")]
  {
    FirstDisparityStore(path, fmt, t, image, disk);
    SecondDisparityStore(path, fmt, t, image, disk);
  }

  /** Both names are free: the plain names are taken. */
  lemma FirstDisparityStore(path: string, fmt: ImgFmt, t: Timestamp, image: Image, disk: Disk)
    requires SupportedEncoding(image.encoding) && disk.unwritable == {}
    requires var stem := ImageStem(path, t, Disparity, image);
             && stem + ".png" !in disk.existing && stem + "_1" + ".png" !in disk.existing
             && stem + "_param.txt" !in disk.existing && stem + "_param_1.txt" !in disk.existing
    ensures var stem := ImageStem(path, t, Disparity, image);
            StoreImageSet(path, fmt, ImageSet(t, None, None, Some(DisparityImage(image)), None, None), true, disk)
              == Progress(Create(Create(disk, stem + ".png"), stem + "_param.txt"),
                          [ImageFile(Disparity, stem + ".png"), ParamFile(stem + "_param.txt")], None)
  {
    var stem := ImageStem(path, t, Disparity, image);
    ResolveDisparityTwice(stem, disk.existing);
    DisparityOnlyAs(path, fmt, t, image, disk, stem + ".png", stem + "_param.txt");
  }

  /** On the disk the first store left, both names take "_1". */
  lemma SecondDisparityStore(path: string, fmt: ImgFmt, t: Timestamp, image: Image, disk: Disk)
    requires SupportedEncoding(image.encoding) && disk.unwritable == {}
    requires var stem := ImageStem(path, t, Disparity, image);
             && stem + ".png" !in disk.existing && stem + "_1" + ".png" !in disk.existing
             && stem + "_param.txt" !in disk.existing && stem + "_param_1.txt" !in disk.existing
    ensures var stem := ImageStem(path, t, Disparity, image);
            var d1 := Create(Create(disk, stem + ".png"), stem + "_param.txt");
            StoreImageSet(path, fmt, ImageSet(t, None, None, Some(DisparityImage(image)), None, None), true, d1).files
              == [ImageFile(Disparity, stem + "_1" + ".png"), ParamFile(stem + "_param_1.txt")]
  {
    var stem := ImageStem(path, t, Disparity, image);
    var d1 := Create(Create(disk, stem + ".png"), stem + "_param.txt");
    ResolveDisparityTwice(stem, disk.existing);
    DisparityOnlyAs(path, fmt, t, image, d1, stem + "_1" + ".png", stem + "_param_1.txt");
  }

  /** The names a disparity image and its parameter file resolve to, stored
      once and then again on the disk the first store left. */
  lemma ResolveDisparityTwice(stem: string, used: set<string>)
    requires stem + ".png" !in used && stem + "_1" + ".png" !in used
    requires stem + "_param.txt" !in used && stem + "_param_1.txt" !in used
    ensures FileNames.EnsureNewFileName(stem + ".png", used) == stem + ".png"
    ensures FileNames.EnsureNewFileName(stem + "_param.txt", used + {stem + ".png"}) == stem + "_param.txt"
    ensures var used1 := used + {stem + ".png"} + {stem + "_param.txt"};
            && FileNames.EnsureNewFileName(stem + ".png", used1) == stem + "_1" + ".png"
            && FileNames.EnsureNewFileName(stem + "_param.txt", used1 + {stem + "_1" + ".png"}) == stem + "_param_1.txt"
  {
    var png, png1 := stem + ".png", stem + "_1" + ".png";
    var txt := stem + "_param.txt";
    assert |png| == |stem| + 4 && |png1| == |stem| + 6 && |txt| == |stem| + 10 && |stem + "_param_1.txt"| == |stem| + 12;
    ResolvePngTwice(stem, used);
    ResolvePngTwice(stem, used + {txt});
    assert used + {txt} + {png} == used + {png} + {txt};
    ResolveParamTwice(stem, used + {png});
    ResolveParamTwice(stem, used + {png, png1});
    assert used + {png, png1} + {txt} == used + {png} + {txt} + {png1};
  }

  /** `ResolveTwice` for the parameter file's "_param.txt" ending. */
  lemma ResolveParamTwice(stem: string, used: set<string>)
    requires stem + "_param.txt" !in used && stem + "_param_1.txt" !in used
    ensures FileNames.EnsureNewFileName(stem + "_param.txt", used) == stem + "_param.txt"
    ensures FileNames.EnsureNewFileName(stem + "_param.txt", used + {stem + "_param.txt"}) == stem + "_param_1.txt"
  {
    assert (stem + "_param") + ".txt" == stem + "_param.txt";
    assert (stem + "_param") + "_1" + ".txt" == stem + "_param_1.txt";
    FileNames.ResolveTwice(stem + "_param", ".txt", used);
  }

  /** `DisparityOnly` for a disk on which the names are known to resolve to
      `file` and `param`. */
  lemma DisparityOnlyAs(path: string, fmt: ImgFmt, t: Timestamp, image: Image, disk: Disk, file: string, param: string)
    requires SupportedEncoding(image.encoding) && disk.unwritable == {}
    requires FileNames.EnsureNewFileName(ImageStem(path, t, Disparity, image) + ".png", disk.existing) == file
    requires FileNames.EnsureNewFileName(ImageStem(path, t, Disparity, image) + "_param.txt", disk.existing + {file}) == param
    ensures StoreImageSet(path, fmt, ImageSet(t, None, None, Some(DisparityImage(image)), None, None), true, disk)
              == Progress(Create(Create(disk, file), param), [ImageFile(Disparity, file), ParamFile(param)], None)
  {
    DisparityOnly(path, fmt, t, image, disk);
  }

  /** The seconds, a dot, and the nanoseconds zero-padded to nine digits: a
      non-negative nanosecond count reads back from its digits, and one below
      a second takes exactly nine of them. */
  lemma NanosecondField(nsec: int)
    requires nsec >= 0
    ensures var field := Decimal.PadLeft(Decimal.IntToString(nsec), 9, '0');
            && Decimal.AllDigits(field)
            && Decimal.Value(field) == nsec
            && |field| >= 9
            && (nsec < 1000000000 ==> |field| == 9)
  {
    Decimal.ZeroPadValue(Decimal.NatToString(nsec), 9);
    if nsec < 1000000000 {
      assert Decimal.Pow10(9) == 1000000000;
      Decimal.NatToStringLength(nsec, 9);
    }
  }

  /** The image a bundle holds for a channel, if any. */
  function ImageOf(s: ImageSet, k: ChannelKind): Option<Image> {
    match k
    case Left => s.left
    case Right => s.right
    case Disparity => (match s.disparity case Some(d) => Some(d.image) case None => None)
    case Confidence => s.confidence
    case Error => s.error
  }

  /** A channel taken from the bundle: its image is the bundle's image of
      that kind, and it carries a parameter file exactly for disparity. */
  predicate Belongs(s: ImageSet, c: Channel) {
    ImageOf(s, c.kind) == Some(c.image) && (c.withParams <==> c.kind == Disparity)
  }

  /** A file named after the bundle: an image file of kind k starts with the
      prefix, the channel suffix and the GPIO suffix of the bundle's image of
      kind k; a parameter file starts with the prefix, "disparity", the GPIO
      suffix of the disparity image and "_param". */
  predicate NamedAfter(prefix: string, s: ImageSet, r: Record) {
    match r
    case ImageFile(k, q) =>
      ImageOf(s, k).Some? && prefix + k.Suffix() + GpioSuffix(ImageOf(s, k).value.gpios) <= q
    case ParamFile(q) =>
      s.disparity.Some? && prefix + Disparity.Suffix() + GpioSuffix(s.disparity.value.image.gpios) + "_param" <= q
  }

  lemma PresentChannelsBelong(s: ImageSet)
    ensures forall c :: c in PresentChannels(s) ==> Belongs(s, c)
  {
  }

  /** Every file one channel produces is named after its channel. */
  lemma StoreChannelNamed(prefix: string, s: ImageSet, c: Channel, png: bool, disk: Disk)
    requires Belongs(s, c)
    ensures var p := StoreChannel(prefix, c, png, disk);
            forall i :: 0 <= i < |p.files| ==> NamedAfter(prefix, s, p.files[i])
  {
    var r := StoreImage(prefix + c.kind.Suffix(), PNG, c.image, png, disk);
    if r.Ok? {
      var images := if r.value.write.Some? then [ImageFile(c.kind, r.value.name)] else [];
      if r.value.write.Some? {
        ImageRecordNamed(prefix, s, c, png, disk);
      }
      if c.withParams {
        var f := StoreParamTxt(prefix + c.kind.Suffix(), DisparityImage(c.image), r.value.disk);
        var params := if f.created then [ParamFile(f.path)] else [];
        ParamRecordNamed(prefix, s, c, r.value.disk);
        NamedAppend(prefix, s, images, params);
        assert StoreChannel(prefix, c, png, disk).files == images + params;
      } else {
        assert StoreChannel(prefix, c, png, disk).files == images;
      }
    }
  }

  /** The image file of a channel taken from the bundle is named after it. */
  lemma ImageRecordNamed(prefix: string, s: ImageSet, c: Channel, png: bool, disk: Disk)
    requires Belongs(s, c)
    requires StoreImage(prefix + c.kind.Suffix(), PNG, c.image, png, disk).Ok?
    requires StoreImage(prefix + c.kind.Suffix(), PNG, c.image, png, disk).value.write.Some?
    ensures NamedAfter(prefix, s, ImageFile(c.kind, StoreImage(prefix + c.kind.Suffix(), PNG, c.image, png, disk).value.name))
  {
    StoredNameExtendsPrefix(prefix + c.kind.Suffix(), c.image, png, disk);
  }

  /** The parameter file of the disparity channel is named after the bundle. */
  lemma ParamRecordNamed(prefix: string, s: ImageSet, c: Channel, disk: Disk)
    requires Belongs(s, c) && c.withParams
    ensures NamedAfter(prefix, s, ParamFile(StoreParamTxt(prefix + c.kind.Suffix(), DisparityImage(c.image), disk).path))
  {
    ParamNameExtendsPrefix(prefix + c.kind.Suffix(), DisparityImage(c.image), disk);
  }

  /** Every file a list of channels taken from one bundle produces is named
      after the bundle, whatever the disk and whether or not a channel throws. */
  lemma {:induction false} StoreChannelsNamed(prefix: string, s: ImageSet, chs: seq<Channel>, png: bool, disk: Disk)
    requires forall c :: c in chs ==> Belongs(s, c)
    ensures var p := StoreChannels(prefix, chs, png, disk);
            forall i :: 0 <= i < |p.files| ==> NamedAfter(prefix, s, p.files[i])
    decreases |chs|
  {
    if |chs| > 0 {
      var first := StoreChannel(prefix, chs[0], png, disk);
      StoreChannelNamed(prefix, s, chs[0], png, disk);
      if first.failure.None? {
        TailMembers(chs, 1);
        StoreChannelsNamed(prefix, s, chs[1..], png, first.disk);
        var rest := StoreChannels(prefix, chs[1..], png, first.disk);
        StoreChannelsStep(prefix, chs, png, disk);
        NamedAppend(prefix, s, first.files, rest.files);
      }
    }
  }

  /** Every file a bundle produces carries the bundle's prefix, the suffix of
      its channel and that image's GPIO suffix; the parameter file carries
      "disparity", the disparity image's GPIO suffix and "_param". */
  lemma StoreImageSetNamed(path: string, fmt: ImgFmt, s: ImageSet, png: bool, disk: Disk)
    ensures var p := StoreImageSet(path, fmt, s, png, disk);
            forall i :: 0 <= i < |p.files| ==> NamedAfter(SetPrefix(path, s.timestamp), s, p.files[i])
  {
    var chs := PresentChannels(s);
    PresentChannelsBelong(s);
    StoreChannelsNamed(SetPrefix(path, s.timestamp), s, chs, png, disk);
    assert StoreImageSet(path, fmt, s, png, disk) == StoreChannels(SetPrefix(path, s.timestamp), chs, png, disk);
  }

  lemma NamedAppend(prefix: string, s: ImageSet, a: seq<Record>, b: seq<Record>)
    requires forall i :: 0 <= i < |a| ==> NamedAfter(prefix, s, a[i])
    requires forall i :: 0 <= i < |b| ==> NamedAfter(prefix, s, b[i])
    ensures forall i :: 0 <= i < |a + b| ==> NamedAfter(prefix, s, (a + b)[i])
  {
    forall i | 0 <= i < |a + b| ensures NamedAfter(prefix, s, (a + b)[i]) {
      if i < |a| {
        assert (a + b)[i] == a[i];
      } else {
        assert (a + b)[i] == b[i - |a|];
      }
    }
  }
}
