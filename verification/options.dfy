/**
 * The command-line options of the FMM drivers: the defaults, the long-option
 * table, the update each recognised option makes, the distribution-name
 * decoder, and which settings the summary printout shows.  getopt_long, atoi
 * and atof are abstracted: the parser sees the (code, argument) tokens
 * getopt_long returns, and the two conversions are parameters.
 */
module Options {

  datatype Option<+T> = None | Some(value: T)

  /** Either a value or the reason parsing stopped. */
  datatype Result<+T, +E> = Success(value: T) | Failure(error: E)

  /** The settings record. `theta` is a double in the source; it is a real here. */
  datatype Args = Args(numBodies: int, numTargets: int, ncrit: int, nspawn: int, images: int,
                       theta: real, mutual: int, verbose: int, distribution: string, repeat: int)

  /** The settings before any option is read. */
  const Defaults: Args := Args(1000000, 100, 16, 1000, 0, 0.4, 1, 1, "cube", 1)

  /** One row of the long-option table: name, whether it takes an argument,
      the flag pointer (always null here, written 0) and the code getopt_long returns. */
  datatype LongOption = LongOption(name: string, hasArg: int, flag: int, val: char)

  /** The table, closed by an all-zero entry (its null name is written ""). */
  const LongOptions: seq<LongOption> := [
    LongOption("numBodies", 1, 0, 'n'),
    LongOption("numTargets", 1, 0, 't'),
    LongOption("ncrit", 1, 0, 'c'),
    LongOption("nspawn", 1, 0, 's'),
    LongOption("images", 1, 0, 'i'),
    LongOption("theta", 1, 0, 'o'),
    LongOption("mutual", 1, 0, 'm'),
    LongOption("verbose", 1, 0, 'v'),
    LongOption("distribution", 1, 0, 'd'),
    LongOption("repeat", 1, 0, 'r'),
    LongOption("help", 0, 0, 'h'),
    LongOption("", 0, 0, 0 as char)
  ]

  /** The number of named entries. */
  const Named: nat := 11

  /** The codes of the options that set a field. */
  const Codes: string := "ntcsiomvdr"

  /** The table is well formed: eleven named entries with distinct names and
      codes, none of them getopt_long's error code '?', all taking an argument
      except help, no flag pointers, and an all-zero terminator. */
  lemma TableShape()
    ensures |LongOptions| == Named + 1
    ensures LongOptions[Named] == LongOption("", 0, 0, 0 as char)
    ensures forall i | 0 <= i < Named :: LongOptions[i].name != "" && LongOptions[i].val != '?'
    ensures forall i | 0 <= i < Named :: LongOptions[i].flag == 0
    ensures forall i | 0 <= i < Named :: LongOptions[i].hasArg == (if LongOptions[i].name == "help" then 0 else 1)
    ensures forall i, j | 0 <= i < j < Named :: LongOptions[i].val != LongOptions[j].val
    ensures forall i, j | 0 <= i < j < Named :: LongOptions[i].name != LongOptions[j].name
  {
  }

  /** The field-setting codes are exactly the codes of the table's entries
      other than help, in table order. */
  lemma CodesAreTableCodes()
    ensures |Codes| == Named - 1
    ensures forall i | 0 <= i < Named - 1 :: Codes[i] == LongOptions[i].val
    ensures 'h' !in Codes && '?' !in Codes
  {
  }

  /** getopt_long's exact-name lookup, scanning from entry `i` to the terminator. */
  function LookupFrom(name: string, i: nat): (c: char)
    requires i <= Named
    ensures c != '?' ==> exists j | i <= j < Named :: LongOptions[j].name == name && LongOptions[j].val == c
    ensures forall j | i <= j < Named && LongOptions[j].name == name :: c == LongOptions[j].val
    decreases Named - i
  {
    if LongOptions[i].name == "" then '?'
    else if LongOptions[i].name == name then LongOptions[i].val
    else LookupFrom(name, i + 1)
  }

  /** The code for `--name`: the entry's code when the name is in the table, '?' otherwise. */
  function Lookup(name: string): (c: char)
    ensures c != '?' <==> exists j | 0 <= j < Named :: LongOptions[j].name == name
    ensures forall j | 0 <= j < Named && LongOptions[j].name == name :: c == LongOptions[j].val
  {
    TableShape();
    LookupFrom(name, 0)
  }

  /** What getopt_long hands the loop: the code and `optarg` ("" when there is none). */
  datatype Token = Token(code: char, optarg: string)

  /** How parsing ends when it does not produce settings; both paths print a
      message and exit. `Usage` carries the settings the loop had reached; its
      message prints every one of them except `repeat`. */
  datatype Exit = Usage(settings: Args) | InvalidDistribution(arg: string)

  /** `parse`: the distribution is chosen by the first character of the argument alone. */
  function ParseDistribution(arg: string): (r: Result<string, Exit>)
    ensures r.Success? <==> |arg| > 0 && arg[0] in "lcsp"
    ensures r.Success? ==> r.value in {"lattice", "cube", "sphere", "plummer"} && r.value[0] == arg[0]
    ensures r.Failure? ==> r.error == InvalidDistribution(arg)
  {
    if |arg| == 0 then Failure(InvalidDistribution(arg))
    else match arg[0]
      case 'l' => Success("lattice")
      case 'c' => Success("cube")
      case 's' => Success("sphere")
      case 'p' => Success("plummer")
      case _ => Failure(InvalidDistribution(arg))
  }

  /** Two arguments with the same first character select the same distribution. */
  lemma DistributionByFirstCharacter(x: string, y: string)
    requires |x| > 0 && |y| > 0 && x[0] == y[0]
    ensures ParseDistribution(x).Success? == ParseDistribution(y).Success?
    ensures ParseDistribution(x).Success? ==> ParseDistribution(x).value == ParseDistribution(y).value
  {
  }

  /** Decoding a decoded name gives it back. */
  lemma DistributionFixedPoint(arg: string)
    requires ParseDistribution(arg).Success?
    ensures ParseDistribution(ParseDistribution(arg).value) == ParseDistribution(arg)
  {
  }

  /** "cubic" and "cx" both mean cube; the empty string is rejected. */
  lemma DistributionExamples()
    ensures ParseDistribution("cubic") == Success("cube")
    ensures ParseDistribution("cx") == Success("cube")
    ensures ParseDistribution("") == Failure(InvalidDistribution(""))
    ensures ParseDistribution("x").Failure?
  {
  }

  /** A setting's value, whatever its C type. */
  datatype Value = IntV(i: int) | RealV(r: real) | StrV(s: string)

  /** The field an option code sets. */
  function Setting(a: Args, code: char): Value
    requires code in Codes
  {
    match code
      case 'n' => IntV(a.numBodies)
      case 't' => IntV(a.numTargets)
      case 'c' => IntV(a.ncrit)
      case 's' => IntV(a.nspawn)
      case 'i' => IntV(a.images)
      case 'o' => RealV(a.theta)
      case 'm' => IntV(a.mutual)
      case 'v' => IntV(a.verbose)
      case 'd' => StrV(a.distribution)
      case 'r' => IntV(a.repeat)
  }

  /** The settings are determined by the ten fields the codes name. */
  lemma SettingsDetermineArgs(a: Args, b: Args)
    requires forall code | code in Codes :: Setting(a, code) == Setting(b, code)
    ensures a == b
  {
    assert Setting(a, 'n') == Setting(b, 'n') && Setting(a, 't') == Setting(b, 't');
    assert Setting(a, 'c') == Setting(b, 'c') && Setting(a, 's') == Setting(b, 's');
    assert Setting(a, 'i') == Setting(b, 'i') && Setting(a, 'o') == Setting(b, 'o');
    assert Setting(a, 'm') == Setting(b, 'm') && Setting(a, 'v') == Setting(b, 'v');
    assert Setting(a, 'd') == Setting(b, 'd') && Setting(a, 'r') == Setting(b, 'r');
  }

  /** A token the loop does not accept: help, '?' or any unlisted code, or a
      distribution argument `parse` rejects. */
  predicate Rejected(t: Token)
  {
    t.code !in Codes || (t.code == 'd' && ParseDistribution(t.optarg).Failure?)
  }

  /** The value an accepted token stores: atof for theta, the decoded name for
      the distribution, atoi for the rest. */
  function NewSetting(t: Token, atoi: string -> int, atof: string -> real): Value
    requires !Rejected(t)
  {
    if t.code == 'o' then RealV(atof(t.optarg))
    else if t.code == 'd' then StrV(ParseDistribution(t.optarg).value)
    else IntV(atoi(t.optarg))
  }

  /** One pass of the option loop. */
  function Apply(a: Args, t: Token, atoi: string -> int, atof: string -> real): (r: Result<Args, Exit>)
    ensures r.Failure? <==> Rejected(t)
    ensures r.Failure? ==> r.error == if t.code == 'd' then InvalidDistribution(t.optarg) else Usage(a)
    ensures r.Success? ==> forall code | code in Codes ::
              Setting(r.value, code) == if code == t.code then NewSetting(t, atoi, atof) else Setting(a, code)
  {
    match t.code
      case 'n' => Success(a.(numBodies := atoi(t.optarg)))
      case 't' => Success(a.(numTargets := atoi(t.optarg)))
      case 'c' => Success(a.(ncrit := atoi(t.optarg)))
      case 's' => Success(a.(nspawn := atoi(t.optarg)))
      case 'i' => Success(a.(images := atoi(t.optarg)))
      case 'o' => Success(a.(theta := atof(t.optarg)))
      case 'm' => Success(a.(mutual := atoi(t.optarg)))
      case 'v' => Success(a.(verbose := atoi(t.optarg)))
      case 'd' =>
        (match ParseDistribution(t.optarg)
           case Success(d) => Success(a.(distribution := d))
           case Failure(e) => Failure(e))
      case 'r' => Success(a.(repeat := atoi(t.optarg)))
      case _ => Failure(Usage(a))
  }

  /** The option loop over the tokens, from settings `a`; the first rejected
      token ends it. */
  function ParseFrom(a: Args, ts: seq<Token>, atoi: string -> int, atof: string -> real): Result<Args, Exit>
  {
    if |ts| == 0 then Success(a)
    else match ParseFrom(a, ts[..|ts| - 1], atoi, atof)
      case Success(b) => Apply(b, ts[|ts| - 1], atoi, atof)
      case Failure(e) => Failure(e)
  }

  /** The constructor: the option loop from the defaults.  It exits exactly
      when some option is rejected; otherwise every field holds what its last
      option set, or its default when the option never appeared. */
  function Parse(ts: seq<Token>, atoi: string -> int, atof: string -> real): (r: Result<Args, Exit>)
    ensures r.Failure? <==> AnyRejected(ts)
    ensures r.Success? ==> forall code | code in Codes ::
              match LastWith(ts, code)
                case None => Setting(r.value, code) == Setting(Defaults, code)
                case Some(t) => !Rejected(t) && Setting(r.value, code) == NewSetting(t, atoi, atof)
  {
    ParseFailsIffRejected(Defaults, ts, atoi, atof);
    var r := ParseFrom(Defaults, ts, atoi, atof);
    if r.Success? then LastOccurrenceWins(Defaults, ts, atoi, atof); r else r
  }

  /** Without options the settings are the documented defaults. */
  lemma NoOptionsGiveDefaults(atoi: string -> int, atof: string -> real)
    ensures Parse([], atoi, atof).Success?
    ensures var a := Parse([], atoi, atof).value;
            && a.numBodies == 1000000 && a.numTargets == 100 && a.ncrit == 16 && a.nspawn == 1000
            && a.images == 0 && a.theta == 0.4 && a.mutual == 1 && a.verbose == 1
            && a.distribution == "cube" && a.repeat == 1
  {
  }

  /** Some token of `ts` is rejected. */
  predicate AnyRejected(ts: seq<Token>)
  {
    exists i | 0 <= i < |ts| :: Rejected(ts[i])
  }

  /** A rejected token is in the front part or is the last one. */
  lemma AnyRejectedSnoc(ts: seq<Token>)
    requires |ts| > 0
    ensures AnyRejected(ts) <==> AnyRejected(ts[..|ts| - 1]) || Rejected(ts[|ts| - 1])
  {
    var init := ts[..|ts| - 1];
    if AnyRejected(init) {
      var i :| 0 <= i < |init| && Rejected(init[i]);
      assert ts[i] == init[i];
    }
    if AnyRejected(ts) {
      var i :| 0 <= i < |ts| && Rejected(ts[i]);
      if i < |init| {
        assert init[i] == ts[i];
      }
    }
  }

  /** Parsing fails exactly when some token is rejected. */
  lemma {:induction false} ParseFailsIffRejected(a: Args, ts: seq<Token>, atoi: string -> int, atof: string -> real)
    ensures ParseFrom(a, ts, atoi, atof).Failure? <==> AnyRejected(ts)
  {
    if |ts| > 0 {
      ParseFailsIffRejected(a, ts[..|ts| - 1], atoi, atof);
      AnyRejectedSnoc(ts);
    }
  }

  /** Once the loop has exited, later tokens change nothing. */
  lemma {:induction false} FailureIsFinal(a: Args, ts: seq<Token>, more: seq<Token>, atoi: string -> int, atof: string -> real)
    requires ParseFrom(a, ts, atoi, atof).Failure?
    ensures ParseFrom(a, ts + more, atoi, atof) == ParseFrom(a, ts, atoi, atof)
  {
    if |more| > 0 {
      var init := more[..|more| - 1];
      FailureIsFinal(a, ts, init, atoi, atof);
      assert (ts + more)[..|ts + more| - 1] == ts + init;
    } else {
      assert ts + more == ts;
    }
  }

  /** The exit comes from the first rejected token: a bad distribution names
      its argument, anything else shows the settings read so far. */
  lemma ParseStopsAtFirstRejected(a: Args, ts: seq<Token>, i: int, atoi: string -> int, atof: string -> real)
    requires 0 <= i < |ts| && Rejected(ts[i])
    requires forall j | 0 <= j < i :: !Rejected(ts[j])
    ensures ParseFrom(a, ts[..i], atoi, atof).Success?
    ensures ParseFrom(a, ts, atoi, atof) == Failure(
              if ts[i].code == 'd' then InvalidDistribution(ts[i].optarg)
              else Usage(ParseFrom(a, ts[..i], atoi, atof).value))
  {
    ParseFailsIffRejected(a, ts[..i], atoi, atof);
    assert ts[..i + 1][..i] == ts[..i];
    assert ParseFrom(a, ts[..i + 1], atoi, atof).Failure?;
    FailureIsFinal(a, ts[..i + 1], ts[i + 1..], atoi, atof);
    assert ts[..i + 1] + ts[i + 1..] == ts;
  }

  /** The last token with the given code, if any. */
  function LastWith(ts: seq<Token>, code: char): Option<Token>
  {
    if |ts| == 0 then None
    else if ts[|ts| - 1].code == code then Some(ts[|ts| - 1])
    else LastWith(ts[..|ts| - 1], code)
  }

  /** `LastWith` finds a token exactly when one carries the code, and then it
      is a token of `ts` with that code and no later token has it. */
  lemma {:induction false} LastWithIsLast(ts: seq<Token>, code: char)
    ensures LastWith(ts, code).None? <==> forall i | 0 <= i < |ts| :: ts[i].code != code
    ensures LastWith(ts, code).Some? ==>
              exists i | 0 <= i < |ts| :: ts[i] == LastWith(ts, code).value && ts[i].code == code
                && forall j | i < j < |ts| :: ts[j].code != code
  {
    if |ts| > 0 && ts[|ts| - 1].code != code {
      var init := ts[..|ts| - 1];
      LastWithIsLast(init, code);
      assert forall i | 0 <= i < |init| :: init[i] == ts[i];
    }
  }

  /** After a successful parse each field holds what its last option set,
      or its starting value when the option never appeared. */
  lemma {:induction false} LastOccurrenceWins(a: Args, ts: seq<Token>, atoi: string -> int, atof: string -> real)
    requires ParseFrom(a, ts, atoi, atof).Success?
    ensures forall code | code in Codes ::
              match LastWith(ts, code)
                case None => Setting(ParseFrom(a, ts, atoi, atof).value, code) == Setting(a, code)
                case Some(t) => !Rejected(t) && Setting(ParseFrom(a, ts, atoi, atof).value, code) == NewSetting(t, atoi, atof)
  {
    if |ts| > 0 {
      var init := ts[..|ts| - 1];
      LastOccurrenceWins(a, init, atoi, atof);
      ParseFailsIffRejected(a, ts, atoi, atof);
      forall code | code in Codes
        ensures LastWith(ts, code).Some? ==> !Rejected(LastWith(ts, code).value)
      {
        LastWithIsLast(ts, code);
      }
    }
  }

  /** What a printed line is about: the expansion order P, or the field an option code sets. */
  datatype Key = Order | Field(code: char)

  predicate ValidKey(k: Key)
  {
    k.Order? || k.code in Codes
  }

  /** A printed line: the key and the value shown after " : ". */
  datatype Line = Line(key: Key, value: Value)

  /** The value a key stands for. */
  function Shown(a: Args, P: int, k: Key): Value
    requires ValidKey(k)
  {
    if k.Order? then IntV(P) else Setting(a, k.code)
  }

  /** The table entry of a field-setting code. */
  function EntryOf(c: char): (i: nat)
    requires c in Codes
    ensures i < Named - 1 && Codes[i] == c
  {
    match c
      case 'n' => 0
      case 't' => 1
      case 'c' => 2
      case 's' => 3
      case 'i' => 4
      case 'o' => 5
      case 'm' => 6
      case 'v' => 7
      case 'd' => 8
      case 'r' => 9
  }

  /** The label printed for a key: "P", or the long-option name of the field's option. */
  function KeyText(k: Key): (text: string)
    requires ValidKey(k)
    ensures k.Field? ==> exists i | 0 <= i < Named - 1 :: LongOptions[i].val == k.code && text == LongOptions[i].name
  {
    match k
      case Order => "P"
      case Field(c) =>
        CodesAreTableCodes();
        LongOptions[EntryOf(c)].name
  }

  /** The keys of the verbose printout, in order. */
  const VerboseKeys: seq<Key> :=
    [Field('n'), Order, Field('o'), Field('c'), Field('s'), Field('i'), Field('m'), Field('v'), Field('d'), Field('r')]

  /** The labels of the verbose printout, in order. */
  const VerboseLabels: seq<string> :=
    ["numBodies", "P", "theta", "ncrit", "nspawn", "images", "mutual", "verbose", "distribution", "repeat"]

  /** `print`: everything except numTargets when verbose, otherwise only
      numBodies and only on rank 0 (the default rank -1 prints nothing). */
  function Print(a: Args, P: int, mpirank: int): (lines: seq<Line>)
    ensures forall k | 0 <= k < |lines| :: ValidKey(lines[k].key) && lines[k].value == Shown(a, P, lines[k].key)
    ensures a.verbose != 0 ==> |lines| == 10 && forall k | 0 <= k < 10 :: lines[k].key == VerboseKeys[k]
    ensures a.verbose == 0 ==> (|lines| == 1 <==> mpirank == 0) && |lines| <= 1
    ensures a.verbose == 0 && mpirank == 0 ==> lines[0].key == Field('n')
  {
    if a.verbose != 0 then
      [Line(Field('n'), IntV(a.numBodies)), Line(Order, IntV(P)), Line(Field('o'), RealV(a.theta)),
       Line(Field('c'), IntV(a.ncrit)), Line(Field('s'), IntV(a.nspawn)), Line(Field('i'), IntV(a.images)),
       Line(Field('m'), IntV(a.mutual)), Line(Field('v'), IntV(a.verbose)),
       Line(Field('d'), StrV(a.distribution)), Line(Field('r'), IntV(a.repeat))]
    else if mpirank == 0 then [Line(Field('n'), IntV(a.numBodies))]
    else []
  }

  /** The verbose labels are "P" and the long-option names of the fields shown. */
  lemma VerboseLabelsAreOptionNames()
    ensures forall k | 0 <= k < 10 :: ValidKey(VerboseKeys[k]) && KeyText(VerboseKeys[k]) == VerboseLabels[k]
  {
    forall k | 0 <= k < 10
      ensures ValidKey(VerboseKeys[k]) && KeyText(VerboseKeys[k]) == VerboseLabels[k]
    {
      if k != 1 {
        var i := [0, 0, 5, 2, 3, 4, 6, 7, 8, 9][k];
        assert VerboseKeys[k] == Field(LongOptions[i].val);
        assert VerboseLabels[k] == LongOptions[i].name;
      }
    }
  }

  /** The verbose printout shows every option-set field except numTargets. */
  lemma PrintShowsAllButNumTargets(a: Args, P: int, mpirank: int)
    requires a.verbose != 0
    ensures forall c | c in Codes && c != 't' :: exists k | 0 <= k < 10 :: Print(a, P, mpirank)[k].key == Field(c)
  {
    var lines := Print(a, P, mpirank);
    forall c | c in Codes && c != 't'
      ensures exists k | 0 <= k < 10 :: lines[k].key == Field(c)
    {
      var k := [0, 0, 3, 4, 5, 2, 6, 7, 8, 9][EntryOf(c)];
      assert lines[k].key == Field(c);
    }
  }

  /** No printout, verbose or not, has a line for numTargets or labelled numTargets. */
  lemma NumTargetsNeverPrinted(a: Args, P: int, mpirank: int)
    ensures forall k | 0 <= k < |Print(a, P, mpirank)| ::
              Print(a, P, mpirank)[k].key != Field('t') && KeyText(Print(a, P, mpirank)[k].key) != "numTargets"
  {
    var lines := Print(a, P, mpirank);
    TableShape();
    forall k | 0 <= k < |lines|
      ensures lines[k].key != Field('t') && KeyText(lines[k].key) != "numTargets"
    {
      if lines[k].key.Field? {
        var i := EntryOf(lines[k].key.code);
        assert i != 1;
        assert LongOptions[i].name != LongOptions[1].name;
      }
    }
  }
}
