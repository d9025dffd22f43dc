# Image storing and argument handling of the gRPC image client

This project models the file-storing core of the gRPC image-stream client:
`utils::ensureNewFileName`, `getGpioSuffix`, `storeImagePNG`, `storeImage`,
`storeImageSet` and the file name that `storeParamTxt` opens
(src/image_utils.cpp, src/image_utils.h). It also models the argument
handling of the client's `main` (src/grpc_image_client.cpp).

Everything is a pure function of an explicit state:

- **The file system is a `Disk`.** It holds the set of names an input stream
  can open and the set of names that cannot be created.
- **Exceptions become values.** Each throw becomes an `Err` of `StoreError`.
  For a whole bundle it becomes the `failure` field of `Progress`, which
  keeps the files created before the throw.
- **The compile-time switch is a parameter.** `INCLUDE_PNG` becomes the
  boolean `pngCompiledIn`.
- **libpng is replaced by a write plan.** `storeImagePNG` yields a
  `PngWrite`, which records what it hands to libpng: path, width, height,
  bit depth, whether `png_set_swap` is called, and the offset at which each
  row is read.
- **GPIO masks are explicit.** They are unsigned 32-bit values (`Mask`).
  Bit `i` is `(m >> i) & 1`, written as a recursive halving.
- **Strings are character sequences.** The decimal forms that
  `operator<<` and `setw`/`setfill` produce are written out in module
  `Decimal`. The one-digit `std::to_string` of a GPIO value bit is
  `Gpio.LineDigit`.

Modules:

| module | file | models |
|---|---|---|
| `Common` | common.dfy | `Option`, `Result`, the errors `storeImage` can throw |
| `Decimal` | decimal.dfy | decimal rendering and zero padding |
| `FileNames` | file_names.dfy | `ensureNewFileName` |
| `Gpio` | gpio.dfy | `getGpioSuffix` |
| `ImageStore` | image_store.dfy | `storeImagePNG`, `storeImage`, the name of `storeParamTxt` |
| `ImageSets` | image_set.dfy | `storeImageSet` |
| `CommandLine` | command_line.dfy | the argument loop of `main` |

Where the header's comments and the code disagree, the model follows the
code:

- **Exhausted probing.** `ensureNewFileName` is documented to produce a new
  name when the given one is taken. When all 99 numbered candidates are also
  taken, it returns the name with its extension cut off. That is the same
  name only when there was no extension (`FileNames.NewNameUnlessExhausted`).
- **Unsupported encodings.** `storeImage` is documented to throw when the
  input format is not supported. In fact `storeImagePNG` silently returns ""
  for any encoding other than "mono8" and "mono16", and creates nothing
  (`ImageStore.UnsupportedEncodingIsSilent`).
- **The format argument.** `storeImageSet` ignores its `fmt` argument and
  always passes `PNG` (`ImageSets.StoreImageSetIgnoresFormat`).
- **Help on a trailing dash token.** A token starting with '-' in the last
  position leads to the help text only when it is read as a token. When it
  is taken as an option's value, it is just a value
  (`CommandLine.TrailingDashIsHelp`, `CommandLine.DashTokenAsValue`).

## Model

| member | source | states |
|---|---|---|
| FileNames.LastDot | src/image_utils.cpp:44 | the result is the index of a '.', and no '.' follows it; None exactly when the name has no '.' |
| FileNames.SplitName | src/image_utils.cpp:40-49 | base and suffix concatenate to the name; a split-off suffix starts with '.', has at most 4 characters and no further '.'; no split exactly when there is no '.' within the last four characters |
| FileNames.FirstFree | src/image_utils.cpp:51-68 | the probe returns the first n below 100 whose candidate is unused, all earlier candidates being used; None means every candidate from n to 99 is used |
| FileNames.EnsureNewFileName | src/image_utils.cpp:30-72 | an unused name comes back unchanged; a used one becomes an unused `<base>_<n><suffix>` with every smaller n used; when all 99 are used the result is the base without its extension |
| FileNames.SplitShortExtension | src/image_utils.cpp:44-49 | a name ending in a dot and at most three non-dot characters splits exactly there |
| FileNames.NoSplitLongExtension | src/image_utils.cpp:44-49 | a dot five or more characters from the end is not split off |
| FileNames.NewNameUnlessExhausted | src/image_utils.cpp:44-71 | for a used name, the result equals the name if and only if all 99 candidates are used and the name had no extension |
| FileNames.ResolveAfterCreate | src/image_utils.cpp:34-68 | resolving a name that was just created yields candidate 1 when that is free |
| FileNames.ResolveTwice | src/image_utils.cpp:34-68 | a name resolved, created and resolved again gives the plain name, then the name with "_1" before the extension |
| FileNames.ResolvedKeepsBase | src/image_utils.cpp:44-71 | whatever a name with a short extension resolves to starts with its base and is the name, the base, or a numbered candidate |
| Decimal.NatToString | src/image_utils.cpp:57 | the decimal form of a number is a non-empty digit string denoting it, with no leading zero |
| Decimal.IntToString | src/image_utils.cpp:265 | a negative number renders as '-' and its magnitude; others render as their decimal form |
| Decimal.PadLeft | src/image_utils.cpp:265 | the padded field is at least `width` long, ends with the value and has only fill characters in front of it |
| Decimal.ZeroPadValue | src/image_utils.cpp:265 | zero padding keeps a digit string a digit string with the same value |
| Decimal.NatToStringLength | src/image_utils.cpp:265 | a number below 10^k has at most k digits, so a nanosecond count below 10^9 fits the nine-character field |
| Decimal.NatToStringInjective | src/image_utils.cpp:57 | distinct numbers give distinct decimal strings |
| Decimal.IntToStringInjective | src/image_utils.cpp:265 | distinct integers, negative ones included, give distinct decimal strings |
| Decimal.PadLeftInjective | src/image_utils.cpp:265 | zero padding loses nothing for strings without a leading fill character |
| Gpio.SetLines | src/image_utils.cpp:195-205 | the list of lines set in a mask, from line 31 down: every set line appears, each only once, in strictly decreasing order |
| Gpio.Scan | src/image_utils.cpp:195-205 | the digits collected by the loop are one per set line of the mask, in that order, each the value bit of its line |
| Gpio.GpioSuffix | src/image_utils.cpp:189-207 | the suffix is '_', one digit per set output line, '_', one digit per set input line, each digit the line's value bit |
| Gpio.PopCountIsSetLines | src/image_utils.cpp:195-205 | the number of digits per part is the number of bits set in the mask |
| Gpio.GpioSuffixShape | src/image_utils.cpp:189-207 | the suffix has length 2 plus the bit counts of outputs and inputs, underscores at 0 and after the output digits, and '0'/'1' everywhere else |
| Gpio.LineInBothParts | src/image_utils.cpp:195-205 | a line that is both output and input shows its value in both parts |
| Gpio.NoLinesSuffix | src/image_utils.cpp:206 | no output and no input lines give "__" |
| Gpio.OneOutOneInSuffix | src/image_utils.cpp:189-207 | output line 0 high and input line 1 low give "_1_0" |
| ImageStore.RowOffsets | src/image_utils.cpp:128-132 | the loop reads `height` rows, row k at offset k times the step |
| ImageStore.RowsDisjoint | src/image_utils.cpp:171-175 | with a step of at least one row's bytes, the rows read do not overlap and come in increasing order |
| ImageStore.StoreImagePng | src/image_utils.cpp:94-185 | mono8 and mono16 are written to the resolved name with depth 8 or 16, bytes swapped exactly for little-endian mono16, one row per line at k times the step; an unopenable file is an error naming it; other encodings create nothing and return "" |
| ImageStore.StoreImage | src/image_utils.cpp:237-260 | a format other than PNG throws "no supported format"; PNG without PNG support throws "not compiled in"; otherwise the PNG writer runs on the prefix plus the GPIO suffix; a successful call adds exactly the file it wrote to the disk, or nothing |
| ImageStore.StoreParamTxt | src/image_utils.cpp:209-218 | the parameter file's name is prefix, GPIO suffix and "_param.txt", made unique; it is created exactly when it can be, and a failure is not reported |
| ImageStore.ParamNameExtendsPrefix | src/image_utils.cpp:216-218 | the parameter file's name starts with prefix, GPIO suffix and "_param", followed by ".txt", "_<n>.txt" or nothing |
| ImageStore.ParamFileFresh | src/image_utils.cpp:216-218 | the parameter file never takes an existing name unless all 99 candidates are used |
| ImageStore.StoredNameIsResolved | src/image_utils.cpp:241-248 | a written image's name is the resolved form of prefix, GPIO suffix and ".png" |
| ImageStore.StoredNameExtendsPrefix | src/image_utils.cpp:241-248 | a written image's name starts with the prefix and GPIO suffix, followed by ".png", "_<n>.png" or nothing |
| ImageStore.StoreImageFresh | src/image_utils.cpp:103-113 | a written image never takes an existing name unless all 99 candidates are used |
| ImageStore.UnsupportedEncodingIsSilent | src/image_utils.cpp:183-184 | an unsupported encoding leaves the disk unchanged and returns "" without an error |
| ImageSets.TimestampFields | src/image_utils.cpp:264-265 | for seconds and nanoseconds in range, the seconds read back from the digits before the dot and the nanoseconds from the nine digits after it |
| ImageSets.TimestampInjective | src/image_utils.cpp:264-265 | distinct time stamps, negative fields included, give distinct strings |
| ImageSets.SetPrefix | src/image_utils.cpp:266 | the prefix is longer than the path, starts with it and ends with '_' |
| ImageSets.SetPrefixInjective | src/image_utils.cpp:264-266 | bundles with distinct time stamps under one path get distinct prefixes |
| ImageSets.PresentChannels | src/image_utils.cpp:268-288 | exactly the disparity channel carries a parameter file |
| ImageSets.PresentChannelsOrdered | src/image_utils.cpp:268-288 | the channels come in the fixed order left, right, disparity, confidence, error |
| ImageSets.PresentChannelsExact | src/image_utils.cpp:268-288 | a channel is stored if and only if the bundle has it |
| ImageSets.PresentChannelsParams | src/image_utils.cpp:276-280 | one parameter file is asked for exactly when the bundle has a disparity image |
| ImageSets.StoreChannel | src/image_utils.cpp:276-280 | one channel adds exactly its files to the disk; a throw creates no file |
| ImageSets.StoreChannels | src/image_utils.cpp:262-289 | the disk grows by exactly the files recorded; without PNG support the first channel throws and nothing is created; a CannotStore exception names a path that cannot be written |
| ImageSets.FirstFailureStops | src/image_utils.cpp:268-288 | the first channel that throws ends the bundle: the later channels are never attempted and its exception is the bundle's |
| ImageSets.StoreChannelsComplete | src/image_utils.cpp:262-289 | when all images can be written, one image file per channel in order and one parameter file per channel that asks for one |
| ImageSets.StoreImageSet | src/image_utils.cpp:262-289 | the disk grows by exactly the files recorded and nothing becomes writable or unwritable; a CannotStore exception names a path that cannot be written |
| ImageSets.StoreImageSetComplete | src/image_utils.cpp:262-289 | on a writable disk, a bundle whose images are all mono8 or mono16 produces one image file per flagged channel in the fixed order, and a parameter file exactly when it has a disparity image; every file is named after its channel as below |
| ImageSets.StoreChannelNamed | src/image_utils.cpp:268-288 | each file one channel produces starts with the prefix, the channel's suffix and its image's GPIO suffix (plus "_param" for the parameter file) |
| ImageSets.StoreChannelsNamed | src/image_utils.cpp:262-289 | every file a list of the bundle's channels produces is named after the bundle, on any disk and whether or not a channel throws |
| ImageSets.StoreImageSetNamed | src/image_utils.cpp:262-289 | every image file of kind k starts with `<path>image_<sec>.<nsec>_`, k's suffix and the GPIO suffix of the bundle's image of kind k; the parameter file starts with that prefix, "disparity", the disparity image's GPIO suffix and "_param" |
| ImageSets.StoreImageSetIgnoresFormat | src/image_utils.cpp:262-289 | the format argument makes no difference |
| ImageSets.StoreImageSetWithoutPng | src/image_utils.cpp:247-251 | without PNG support a non-empty bundle throws before any file is created |
| ImageSets.LeftOnly | src/image_utils.cpp:268-271 | a left-only bundle creates one image file under the resolved name |
| ImageSets.DisparityOnly | src/image_utils.cpp:276-280 | a disparity-only bundle creates its image file, then the parameter file, resolved after the image exists |
| ImageSets.DisparityUnsupportedEncoding | src/image_utils.cpp:276-280 | a disparity image in an unsupported encoding is skipped, yet its parameter file is written |
| ImageSets.RepeatedTimestamp | src/image_utils.cpp:264-271 | storing the same left-only bundle twice gives the plain name, then the "_1" name |
| ImageSets.RepeatedDisparity | src/image_utils.cpp:264-280 | storing the same disparity-only bundle twice gives the plain image and parameter names, then both with "_1" |
| ImageSets.NanosecondField | src/image_utils.cpp:264-266 | the nanosecond field reads back as the count and is exactly nine digits below one second |
| CommandLine.ParseOptions | src/grpc_image_client.cpp:105-123 | the option loop ends in help only when the last token starts with '-' |
| CommandLine.NoDashKeepsFlags | src/grpc_image_client.cpp:105-123 | tokens none of which starts with '-' neither end in help nor change any flag |
| CommandLine.ParseArgs | src/grpc_image_client.cpp:101-129 | a missing target, "-h" or a first argument starting with '-' gives help; otherwise the target is argv[1] and streaming happens exactly when the option loop ends normally |
| CommandLine.ArgumentLoop | src/grpc_image_client.cpp:92-129 | the index loop of `main`, with every `argv[i++]` in range, decides as the reference parse does |
| CommandLine.TargetOnly | src/grpc_image_client.cpp:94-99 | a target alone selects left and disparity only |
| CommandLine.ParseAppend | src/grpc_image_client.cpp:105-123 | the options are read left to right: a prefix read to its end hands its flags to the rest |
| CommandLine.OptionSetsFlag | src/grpc_image_client.cpp:113-122 | an option and its value set that flag to false exactly for "0" and leave the other flags alone |
| CommandLine.FinalOccurrence | src/grpc_image_client.cpp:113-122 | an option pair read at the very end sets its flag to false exactly for "0" |
| CommandLine.UnmentionedKept | src/grpc_image_client.cpp:105-123 | tokens that never mention an option leave its flag alone |
| CommandLine.LastOccurrenceWins | src/grpc_image_client.cpp:105-123 | after an option pair read as such, later tokens that do not mention the option leave its flag as that pair set it |
| CommandLine.LeftOffRightOn | src/grpc_image_client.cpp:94-123 | "-l 0 -r 1" switches left off and right on and keeps disparity on |
| CommandLine.OtherTokenSkipped | src/grpc_image_client.cpp:105-123 | a token that is not an option consumes only itself and changes nothing |
| CommandLine.TrailingDashIsHelp | src/grpc_image_client.cpp:108-112 | a dash token read in the last position gives help, whatever came before |
| CommandLine.DashTokenAsValue | src/grpc_image_client.cpp:108-114 | a dash token taken as a value is not a help request: "-l -x" switches left on |

## Left out

- ImageSets.RepeatedTimestamp: the repeated-time-stamp property is proved for a left-only bundle, and by `ImageSets.RepeatedDisparity` for a disparity-only bundle with its parameter file, not for a bundle holding several channels. For such a bundle each channel's "_1" name would also have to be shown distinct from every other channel's plain name, which the model does not state.
- FileNames.SplitName: lengths count characters, whereas `name.size()` counts bytes. A name with non-ASCII characters after its last dot can therefore split in the model where the program does not ("x.äää" is 8 bytes in UTF-8). The names `storeImageSet` builds end in the ASCII ".png" and ".txt", which are unaffected.
- The gRPC client itself is left out: the channel, the stub and the streaming call in `main` after the arguments are read. It is network I/O, and it never calls `storeImageSet`.
- The default target "172.17.0.1:50051" is left out: it is assigned but never used, because a missing target prints the help text.
- `print_help` and all console output are left out. Help is the `Help` command.
- The libpng calls are replaced by the `PngWrite` plan. The pixel bytes are not modelled; only the offsets the rows are read from are.
- The text body of the parameter file is left out: its lines are floating-point numbers printed with five decimals. Only its name and its creation are modelled.
- The exception objects are left out. `storeImagePNG` throws a pointer (`throw new IOException`), while `storeImage` throws by value. Both become an `Err`; what a caller's `catch` would match is not modelled.
- The file system is a snapshot, a `Disk`. Races between probing a name and opening it are not modelled.
- Whether a name is used stands for whether an input stream can open it. A file that exists but cannot be read counts as unused, as it does in the code.
- The `ImgFmt` enum is modelled as an integer with `PNG` = 0. Values other than `PNG` reach the `default` arm only through a cast.
- Time stamps use unbounded integers for seconds and nanoseconds. Their protobuf widths are not modelled.
- Image width, height and step are natural numbers. The `size_t` arithmetic of the row pointer does not wrap in the model.
- Protobuf message accessors are left out. An absent sub-message is `None`, and a present one carries only the fields listed in `Image`.
