/** The argument handling of `main` (src/grpc_image_client.cpp): a target,
    then options `-l`, `-r`, `-d`, `-c`, `-e`, each followed by a value. */
module CommandLine {
  import opened Common

  /** Which image channels the client asks for. */
  datatype Flags = Flags(left: bool, right: bool, disparity: bool, confidence: bool, error: bool)

  /** The channels asked for when no option says otherwise. */
  const Defaults: Flags := Flags(true, false, true, false, false)

  /** What `main` goes on to do: print the help text, or stream from a target. */
  datatype Command = Help | Stream(target: string, flags: Flags)

  /** `s[0]` of a C string: the terminating NUL when the string is empty. */
  function FirstChar(s: string): char {
    if |s| == 0 then '\0' else s[0]
  }

  predicate IsOption(p: string) {
    p == "-l" || p == "-r" || p == "-d" || p == "-c" || p == "-e"
  }

  /** The flag an option sets, given the value token: false exactly when the
      value is "0". */
  function SetOption(f: Flags, option: string, value: string): (g: Flags)
    requires IsOption(option)
  {
    var on := value != "0";
    if option == "-l" then f.(left := on)
    else if option == "-r" then f.(right := on)
    else if option == "-d" then f.(disparity := on)
    else if option == "-c" then f.(confidence := on)
    else f.(error := on)
  }

  /** The value of the flag an option sets. */
  function OptionValue(f: Flags, option: string): bool
    requires IsOption(option)
  {
    if option == "-l" then f.left
    else if option == "-r" then f.right
    else if option == "-d" then f.disparity
    else if option == "-c" then f.confidence
    else f.error
  }

  /** The option loop over the tokens after the target; None means the help
      text was printed. A token starting with '-' in the last position ends
      in help; an option takes the next token as its value; anything else is
      passed over. */
  function ParseOptions(rest: seq<string>, f: Flags): (r: Option<Flags>)
    ensures r.None? ==> |rest| > 0 && FirstChar(rest[|rest| - 1]) == '-'
    decreases |rest|
  {
    if |rest| == 0 then Some(f)
    else if FirstChar(rest[0]) == '-' && |rest| == 1 then None
    else if IsOption(rest[0]) then
      assert FirstChar(rest[0]) == '-';
      ParseOptions(rest[2..], SetOption(f, rest[0], rest[1]))
    else ParseOptions(rest[1..], f)
  }

  /** Tokens none of which starts with '-' hold no option and cannot end in
      help: the flags come back as they were. */
  lemma {:induction false} NoDashKeepsFlags(rest: seq<string>, f: Flags)
    requires forall i :: 0 <= i < |rest| ==> FirstChar(rest[i]) != '-'
    ensures ParseOptions(rest, f) == Some(f)
    decreases |rest|
  {
    if |rest| > 0 {
      assert !IsOption(rest[0]) by {
        assert FirstChar(rest[0]) != '-';
      }
      assert forall i :: 0 <= i < |rest[1..]| ==> FirstChar(rest[1..][i]) != '-' by {
        assert forall i :: 0 <= i < |rest[1..]| ==> rest[1..][i] == rest[i + 1];
      }
      NoDashKeepsFlags(rest[1..], f);
    }
  }

  /** `main`'s handling of argv (argv[0] is the program name). */
  function ParseArgs(argv: seq<string>): (c: Command)
    ensures c.Stream? ==> |argv| > 1 && c.target == argv[1] && FirstChar(argv[1]) != '-'
    ensures |argv| <= 1 || argv[1] == "-h" || FirstChar(argv[1]) == '-' ==> c == Help
    ensures |argv| > 1 && FirstChar(argv[1]) != '-' ==>
      (c.Stream? <==> ParseOptions(argv[2..], Defaults).Some?)
  {
    if |argv| > 1 && argv[1] != "-h" && FirstChar(argv[1]) != '-' then
      match ParseOptions(argv[2..], Defaults)
      case Some(f) => Stream(argv[1], f)
      case None => Help
    else Help
  }

  /** The loop of `main` as written, over argv by index: every `argv[i++]`
      it reads is in range, and it decides as `ParseArgs` does. */
  method ArgumentLoop(argv: seq<string>) returns (c: Command)
    ensures c == ParseArgs(argv)
  {
    var left, right, disparity, confidence, error := true, false, true, false, false;
    if |argv| > 1 && argv[1] != "-h" && FirstChar(argv[1]) != '-' {
      var i := 1;
      var target := argv[i];
      i := i + 1;
      while i < |argv|
        invariant 2 <= i <= |argv|
        invariant ParseOptions(argv[i..], Flags(left, right, disparity, confidence, error))
                  == ParseOptions(argv[2..], Defaults)
        decreases |argv| - i
      {
        var p := argv[i];
        i := i + 1;
        if FirstChar(p) == '-' && i >= |argv| {
          return Help;
        }
        assert argv[i - 1..] == [p] + argv[i..];
        if p == "-l" {
          left := argv[i] != "0";
          i := i + 1;
        } else if p == "-r" {
          right := argv[i] != "0";
          i := i + 1;
        } else if p == "-d" {
          disparity := argv[i] != "0";
          i := i + 1;
        } else if p == "-c" {
          confidence := argv[i] != "0";
          i := i + 1;
        } else if p == "-e" {
          error := argv[i] != "0";
          i := i + 1;
        }
      }
      assert argv[i..] == [];
      c := Stream(target, Flags(left, right, disparity, confidence, error));
    } else {
      c := Help;
    }
  }

  /** A target and nothing else: the default channels. */
  lemma TargetOnly(program: string, target: string)
    requires FirstChar(target) != '-'
    ensures ParseArgs([program, target]) == Stream(target, Flags(true, false, true, false, false))
  {
  }

  /** Once a prefix of the options has been read to its end, the rest is read
      from the flags it left. */
  lemma {:induction false} ParseAppend(a: seq<string>, b: seq<string>, f: Flags)
    requires ParseOptions(a, f).Some?
    ensures ParseOptions(a + b, f) == ParseOptions(b, ParseOptions(a, f).value)
    decreases |a|
  {
    if |a| == 0 {
      assert a + b == b;
    } else if IsOption(a[0]) {
      assert (a + b)[2..] == a[2..] + b;
      ParseAppend(a[2..], b, SetOption(f, a[0], a[1]));
    } else {
      assert (a + b)[1..] == a[1..] + b;
      ParseAppend(a[1..], b, f);
    }
  }

  /** An option followed by a value sets its flag to false if and only if the
      value is exactly "0", and leaves the other flags alone. */
  lemma OptionSetsFlag(option: string, value: string, f: Flags)
    requires IsOption(option)
    ensures ParseOptions([option, value], f).Some?
    ensures var g := ParseOptions([option, value], f).value;
            && (OptionValue(g, option) <==> value != "0")
            && forall other :: IsOption(other) && other != option ==> OptionValue(g, other) == OptionValue(f, other)
  {
    assert [option, value][2..] == [];
  }

  /** An option pair read at the very end decides its flag. */
  lemma FinalOccurrence(a: seq<string>, option: string, value: string, f: Flags)
    requires IsOption(option) && ParseOptions(a, f).Some?
    ensures ParseOptions(a + [option, value], f).Some?
    ensures OptionValue(ParseOptions(a + [option, value], f).value, option) <==> value != "0"
  {
    ParseAppend(a, [option, value], f);
    OptionSetsFlag(option, value, ParseOptions(a, f).value);
  }

  /** Tokens that never mention an option leave its flag alone. */
  lemma {:induction false} UnmentionedKept(b: seq<string>, option: string, f: Flags)
    requires IsOption(option) && option !in b && ParseOptions(b, f).Some?
    ensures OptionValue(ParseOptions(b, f).value, option) == OptionValue(f, option)
    decreases |b|
  {
    if |b| > 0 {
      if IsOption(b[0]) {
        TailMembers(b, 2);
        OtherOptionKept(f, b[0], b[1], option);
        UnmentionedKept(b[2..], option, SetOption(f, b[0], b[1]));
      } else {
        TailMembers(b, 1);
        UnmentionedKept(b[1..], option, f);
      }
    }
  }

  /** Setting one option leaves every other option's flag alone. */
  lemma OtherOptionKept(f: Flags, other: string, value: string, option: string)
    requires IsOption(other) && IsOption(option) && other != option
    ensures OptionValue(SetOption(f, other, value), option) == OptionValue(f, option)
  {
  }

  /** The last occurrence of an option decides its flag: after an option pair
      read as such, later tokens that do not mention the option change
      nothing, so "-l 0 -r 1" leaves the left image off. */
  lemma LastOccurrenceWins(a: seq<string>, option: string, value: string, b: seq<string>, f: Flags)
    requires IsOption(option) && ParseOptions(a, f).Some? && option !in b
    requires ParseOptions(a + [option, value] + b, f).Some?
    ensures OptionValue(ParseOptions(a + [option, value] + b, f).value, option) <==> value != "0"
  {
    FinalOccurrence(a, option, value, f);
    var g := ParseOptions(a + [option, value], f).value;
    ParseAppend(a + [option, value], b, f);
    UnmentionedKept(b, option, g);
  }

  /** "-l 0 -r 1" switches left off and right on; disparity keeps its default. */
  lemma LeftOffRightOn(program: string, target: string)
    requires FirstChar(target) != '-'
    ensures ParseArgs([program, target, "-l", "0", "-r", "1"]) == Stream(target, Flags(false, true, true, false, false))
  {
    var rest := ["-l", "0", "-r", "1"];
    assert [program, target, "-l", "0", "-r", "1"][2..] == rest;
    assert rest[2..] == ["-r", "1"];
    assert rest[2..][2..] == [];
  }

  /** A token that is not an option, and is not a dash token at the end,
      consumes only itself and changes no flag. */
  lemma OtherTokenSkipped(p: string, rest: seq<string>, f: Flags)
    requires !IsOption(p) && (FirstChar(p) != '-' || |rest| > 0)
    ensures ParseOptions([p] + rest, f) == ParseOptions(rest, f)
  {
    assert ([p] + rest)[1..] == rest;
  }

  /** A dash token read as a token in the last position ends in help,
      whatever was read before it. */
  lemma TrailingDashIsHelp(a: seq<string>, t: string, f: Flags)
    requires ParseOptions(a, f).Some? && FirstChar(t) == '-'
    ensures ParseOptions(a + [t], f) == None
  {
    ParseAppend(a, [t], f);
  }

  /** A dash token taken as an option's value is not a help request: "-l -x"
      switches the left image on. */
  lemma DashTokenAsValue(f: Flags)
    ensures ParseOptions(["-l", "-x"], f) == Some(f.(left := true))
  {
    assert ["-l", "-x"][2..] == [];
  }
}
