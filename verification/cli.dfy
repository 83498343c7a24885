/** git/cli/command.go: the injected command-line collaborator and the
    version probe that gates everything else.

    The `Command` interface is modelled the way the package's own test fake
    implements it: `call` is an oracle giving the captured output of
    `git <args>` or an error, and `run` an oracle giving the error (if any) of
    `git <args>` run with inherited streams. Every operation of the model
    returns, beside its Go result, the list of invocations it made. */
module Cli {
  import opened Wrappers
  import opened Strings

  type Args = seq<string>

  /** The error values the program distinguishes. */
  datatype Error =
    | /** *exec.ExitError: git ran and exited unsuccessfully (e.g. "exit status 1"). */
      ExitError(status: string)
    | /** Any other error value, by its Error() text. */
      Failure(message: string)
    | /** Not an error value in Go: the runtime panic of indexing a slice of
          `length` elements at `index`, which aborts the process. */
      Panic(index: nat, length: nat)
  {
    /** The text fmt.Println prints for the error. */
    function Text(): string {
      match this
      case ExitError(status) => status
      case Failure(message) => message
      case Panic(i, n) => "runtime error: index out of range [" + Dec(i) + "] with length " + Dec(n)
    }
  }

  /** One use of the collaborator, in the order the program makes them. */
  datatype Invocation = Call(args: Args) | Run(args: Args)

  /** The collaborator as a pair of oracles. `run` answers by argument list
      only: within one operation every argument list the program passes is
      distinct, so an oracle that also looked at earlier runs could not be told
      apart from some oracle of this shape. */
  datatype Command = Command(call: Args -> Result<string, Error>, run: Args -> Option<Error>)

  /** A result together with the invocations that produced it. */
  datatype Traced<T> = Traced(value: T, trace: seq<Invocation>)

  datatype Version = Version(major: nat, minor: nat, patch: nat)

  const ZeroVersion := Version(0, 0, 0)

  const VersionArgs: Args := ["--version"]

  /** Go's `int` on a 64-bit platform: fmt's %d rejects a larger value. */
  const MaxInt: nat := 0x7fff_ffff_ffff_ffff

  /** Matching the literal text of a scan format. */
  function Literal(s: string, lit: string): (r: Option<string>)
    ensures r.Some? <==> lit <= s
    ensures r.Some? ==> s == lit + r.value
  {
    if lit <= s then Some(s[|lit|..]) else None
  }

  /** The %d verb restricted to an unsigned run of decimal digits: the whole
      run is consumed, and a value beyond Go's `int` is an error. */
  function Decimal(s: string): (r: Option<(nat, string)>)
    ensures r.Some? ==> r.value.0 <= MaxInt
    ensures r.Some? ==> |r.value.1| < |s| && s[|s| - |r.value.1|..] == r.value.1
    ensures r.Some? ==> r.value.1 == [] || !IsDigit(r.value.1[0])
    ensures r.Some? ==> IsDecimal(s[..|s| - |r.value.1|]) && r.value.0 == DigitsValue(s[..|s| - |r.value.1|])
  {
    var k := DigitRun(s);
    if k == 0 then None
    else if DigitsValue(s[..k]) > MaxInt then None
    else Some((DigitsValue(s[..k]), s[k..]))
  }

  /** One %d followed by the literal that comes after it in the format. */
  function Field(s: string, after: string): Option<(nat, string)> {
    var number :- Decimal(s);
    var rest :- Literal(number.1, after);
    Some((number.0, rest))
  }

  /** fmt.Fscanf(out, "git version %d.%d.%d\n", ...) on the part of its
      input language this model covers (see VersionLine). */
  function ScanVersion(out: string): (r: Option<Version>)
    ensures r.Some? ==> r.value.major <= MaxInt && r.value.minor <= MaxInt && r.value.patch <= MaxInt
  {
    var s0 :- Literal(out, "git version ");
    var major :- Field(s0, ".");
    var minor :- Field(major.1, ".");
    var patch :- Field(minor.1, "\n");
    Some(Version(major.0, minor.0, patch.0))
  }

  /** The version line, spelt with three digit runs. */
  function VersionLine(d1: string, d2: string, d3: string): string {
    "git version " + d1 + "." + d2 + "." + d3 + "\n"
  }

  /** The characters fmt's scanner treats as blanks (its isSpace table),
      newline included. */
  predicate IsBlank(c: char) {
    || '\t' <= c <= '\r' || c == ' ' || c == '\U{0085}' || c == '\U{00A0}'
    || c == '\U{1680}' || '\U{2000}' <= c <= '\U{200A}' || c == '\U{2028}'
    || c == '\U{2029}' || c == '\U{202F}' || c == '\U{205F}' || c == '\U{3000}'
  }

  predicate IsDecimal(ds: string) {
    ds != [] && AllDigits(ds) && DigitsValue(ds) <= MaxInt
  }

  /** GetVersion: one `git --version`; a call error comes back unchanged, an
      output the scan rejects becomes "cannot parse: " followed by the whole
      output, and every failure carries the zero Version. */
  function GetVersion(cmd: Command): (r: Traced<(Version, Option<Error>)>)
    ensures r.trace == [Call(VersionArgs)]
    ensures r.value.1.Some? ==> r.value.0 == ZeroVersion
    ensures cmd.call(VersionArgs).Err? ==> r.value.1 == Some(cmd.call(VersionArgs).error)
    ensures cmd.call(VersionArgs).Ok? ==>
      var out := cmd.call(VersionArgs).value;
      match ScanVersion(out)
      case Some(v) => r.value == (v, None)
      case None => r.value.1 == Some(Failure("cannot parse: " + out))
  {
    var called := cmd.call(VersionArgs);
    var result :=
      if called.Err? then (ZeroVersion, Some(called.error))
      else match ScanVersion(called.value)
        case None => (ZeroVersion, Some(Failure("cannot parse: " + called.value)))
        case Some(v) => (v, None);
    Traced(result, [Call(VersionArgs)])
  }

  // ---------------------------------------------------------------------
  // The version grammar

  lemma DecimalOf(ds: string, t: string)
    requires IsDecimal(ds)
    requires t == [] || !IsDigit(t[0])
    ensures Decimal(ds + t) == Some((DigitsValue(ds), t))
  {
    DigitRunOfDigits(ds, t);
    assert (ds + t)[..|ds|] == ds;
    assert (ds + t)[|ds|..] == t;
  }

  lemma FieldOf(ds: string, after: string, rest: string)
    requires IsDecimal(ds)
    requires after != [] && !IsDigit(after[0])
    ensures Field(ds + after + rest, after) == Some((DigitsValue(ds), rest))
  {
    assert ds + after + rest == ds + (after + rest);
    DecimalOf(ds, after + rest);
    assert Literal(after + rest, after) == Some(rest);
  }

  lemma FieldSound(s: string, after: string)
    requires Field(s, after).Some?
    ensures exists ds :: IsDecimal(ds) && s == ds + after + Field(s, after).value.1
                      && Field(s, after).value.0 == DigitsValue(ds)
  {
    var number := Decimal(s).value;
    var rest := Field(s, after).value.1;
    var ds := s[..|s| - |number.1|];
    assert IsDecimal(ds) && number.0 == DigitsValue(ds);
    assert s == ds + number.1;
    assert number.1 == after + rest;
  }

  lemma VersionLineParts(d1: string, d2: string, d3: string, rest: string)
    ensures VersionLine(d1, d2, d3) + rest
         == "git version " + ((d1 + ".") + ((d2 + ".") + ((d3 + "\n") + rest)))
  {
  }

  /** Every version line with in-range numbers scans to its three numbers,
      whatever follows the newline. */
  lemma ScanVersionLine(d1: string, d2: string, d3: string, rest: string)
    requires IsDecimal(d1) && IsDecimal(d2) && IsDecimal(d3)
    ensures ScanVersion(VersionLine(d1, d2, d3) + rest)
         == Some(Version(DigitsValue(d1), DigitsValue(d2), DigitsValue(d3)))
  {
    var t2 := d3 + "\n" + rest;
    var t1 := d2 + "." + t2;
    var t0 := d1 + "." + t1;
    VersionLineParts(d1, d2, d3, rest);
    assert Literal("git version " + t0, "git version ") == Some(t0);
    FieldOf(d1, ".", t1);
    FieldOf(d2, ".", t2);
    FieldOf(d3, "\n", rest);
  }

  /** Round trip: the line git prints for a version scans back to it. */
  lemma ScanVersionOfDec(v: Version, rest: string)
    requires v.major <= MaxInt && v.minor <= MaxInt && v.patch <= MaxInt
    ensures ScanVersion(VersionLine(Dec(v.major), Dec(v.minor), Dec(v.patch)) + rest) == Some(v)
  {
    ScanVersionLine(Dec(v.major), Dec(v.minor), Dec(v.patch), rest);
  }

  /** Conversely, the scan accepts nothing but a version line followed by
      arbitrary text. */
  lemma ScanVersionSound(out: string)
    requires ScanVersion(out).Some?
    ensures exists d1, d2, d3, rest ::
      && IsDecimal(d1) && IsDecimal(d2) && IsDecimal(d3)
      && out == VersionLine(d1, d2, d3) + rest
      && ScanVersion(out) == Some(Version(DigitsValue(d1), DigitsValue(d2), DigitsValue(d3)))
  {
    var t0 := out[12..];
    assert out == "git version " + t0;
    var major := Field(t0, ".").value;
    var minor := Field(major.1, ".").value;
    var patch := Field(minor.1, "\n").value;
    FieldSound(t0, ".");
    var d1 :| IsDecimal(d1) && t0 == d1 + "." + major.1 && major.0 == DigitsValue(d1);
    FieldSound(major.1, ".");
    var d2 :| IsDecimal(d2) && major.1 == d2 + "." + minor.1 && minor.0 == DigitsValue(d2);
    FieldSound(minor.1, "\n");
    var d3 :| IsDecimal(d3) && minor.1 == d3 + "\n" + patch.1 && patch.0 == DigitsValue(d3);
    VersionLineParts(d1, d2, d3, patch.1);
  }

  /** The scan never looks past the newline: once it succeeds, anything
      appended to the output leaves the result alone. */
  lemma ScanVersionIgnoresTail(out: string, extra: string)
    requires ScanVersion(out).Some?
    ensures ScanVersion(out + extra) == ScanVersion(out)
  {
    ScanVersionSound(out);
    var d1, d2, d3, rest :| && IsDecimal(d1) && IsDecimal(d2) && IsDecimal(d3)
      && out == VersionLine(d1, d2, d3) + rest
      && ScanVersion(out) == Some(Version(DigitsValue(d1), DigitsValue(d2), DigitsValue(d3)));
    AppendAssoc(VersionLine(d1, d2, d3), rest, extra);
    ScanVersionLine(d1, d2, d3, rest + extra);
  }

  // ---------------------------------------------------------------------
  // The cases of git/cli/version_test.go

  lemma SmallDecimals()
    ensures IsDecimal("1") && DigitsValue("1") == 1
    ensures IsDecimal("23") && DigitsValue("23") == 23
    ensures IsDecimal("456") && DigitsValue("456") == 456
  {
    assert "23"[..1] == "2";
    assert "456"[..2] == "45";
    assert "45"[..1] == "4";
  }

  lemma GetVersionParses(cmd: Command)
    requires cmd.call(VersionArgs) == Ok("git version 1.23.456\n")
    ensures GetVersion(cmd).value == (Version(1, 23, 456), None)
  {
    SmallDecimals();
    assert "git version 1.23.456\n" == VersionLine("1", "23", "456") + "";
    ScanVersionLine("1", "23", "456", "");
  }

  /** A patch number followed by a character that is neither a digit nor a
      blank is rejected. */
  lemma ScanVersionRejectsTrailing(d1: string, d2: string, d3: string, c: char, rest: string)
    requires IsDecimal(d1) && IsDecimal(d2) && IsDecimal(d3)
    requires !IsDigit(c) && !IsBlank(c)
    ensures ScanVersion("git version " + ((d1 + ".") + ((d2 + ".") + (d3 + ([c] + rest))))) == None
  {
    var t2 := d3 + ([c] + rest);
    var t1 := (d2 + ".") + t2;
    var t0 := (d1 + ".") + t1;
    assert Literal("git version " + t0, "git version ") == Some(t0);
    FieldOf(d1, ".", t1);
    FieldOf(d2, ".", t2);
    PatchRejects(d3, c, rest);
  }

  lemma PatchRejects(ds: string, c: char, rest: string)
    requires IsDecimal(ds) && !IsDigit(c) && c != '\n'
    ensures Field(ds + ([c] + rest), "\n") == None
  {
    DecimalOf(ds, [c] + rest);
    assert !("\n" <= [c] + rest);
  }

  /** A version without a patch number is rejected: after the second dot
      comes the end of the output, the newline, or a character that can start
      no number. */
  lemma ScanVersionRejectsMissingPatch(d1: string, d2: string, rest: string)
    requires IsDecimal(d1) && IsDecimal(d2)
    requires rest == [] || rest[0] == '\n'
          || (!IsDigit(rest[0]) && !IsBlank(rest[0]) && rest[0] != '+' && rest[0] != '-')
    ensures ScanVersion("git version " + ((d1 + ".") + ((d2 + ".") + rest))) == None
  {
    var t1 := (d2 + ".") + rest;
    var t0 := (d1 + ".") + t1;
    assert Literal("git version " + t0, "git version ") == Some(t0);
    FieldOf(d1, ".", t1);
    FieldOf(d2, ".", rest);
  }

  lemma GetVersionPassesCallError(cmd: Command, e: Error)
    requires cmd.call(VersionArgs) == Err(e)
    ensures GetVersion(cmd).value == (ZeroVersion, Some(e))
  {
  }
}
