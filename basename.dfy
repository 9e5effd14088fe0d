/**
 * The `basename` utility: print each NAME with its leading directory
 * components removed and, if asked, a trailing SUFFIX removed too.
 *
 * The command line arrives already parsed: the free operands in order and
 * the three options -a/--multiple, -s/--suffix SUFFIX and -z/--zero.
 * A run either fails with a usage error (exit status 1, nothing printed)
 * or yields the records written to standard output, one per name.
 */
module BasenameUtil {
  import opened Wrappers
  import opened UnixPath

  // ---------------------------------------------------------------------
  // Suffix removal
  // ---------------------------------------------------------------------

  /** True when `name` ends with `suffix` (every name ends with the empty suffix). */
  predicate EndsWith(name: string, suffix: string)
  {
    |suffix| <= |name| && name[|name| - |suffix|..] == suffix
  }

  /**
   * Removes `suffix` from the end of `name`, except that a name equal to
   * its suffix is kept whole; a name that does not end with it is unchanged.
   */
  function StripSuffix(name: string, suffix: string): (r: string)
    ensures r <= name
    ensures name == suffix ==> r == name
    ensures name != suffix && EndsWith(name, suffix) ==> r + suffix == name
    ensures !EndsWith(name, suffix) ==> r == name
    ensures suffix == "" ==> r == name
    ensures name != "" ==> r != ""
  {
    if name == suffix then name
    else if EndsWith(name, suffix) then name[..|name| - |suffix|]
    else name
  }

  // ---------------------------------------------------------------------
  // Last component of a path
  // ---------------------------------------------------------------------

  /** `fullname` with every separator at its end removed. */
  function TrimTrailingSeparators(fullname: string): (path: string)
    ensures path <= fullname
    ensures path == "" || path[|path| - 1] != '/'
    ensures forall i :: |path| <= i < |fullname| ==> fullname[i] == '/'
    decreases |fullname|
  {
    if fullname != "" && fullname[|fullname| - 1] == '/' then
      TrimTrailingSeparators(fullname[..|fullname| - 1])
    else fullname
  }

  /** True when `s` holds nothing but separators (or nothing at all). */
  predicate OnlySeparators(s: string)
  {
    forall i :: 0 <= i < |s| ==> s[i] == '/'
  }

  /**
   * The name printed for `fullname`: trailing separators are ignored, the
   * last component is taken and `suffix` is stripped from it.
   */
  function Basename(fullname: string, suffix: string): (r: string)
    ensures '/' in r ==> r == "/"
    ensures CharsWithin(r, fullname)
  {
    var path := TrimTrailingSeparators(fullname);
    var last := LastComponent(path);
    if last.None? then ""
    else
      var name := Text(last.value);
      var r := StripSuffix(name, suffix);
      CharsThroughPrefixes(r, name, path, fullname);
      r
  }

  // ---------------------------------------------------------------------
  // Properties of Basename
  // ---------------------------------------------------------------------

  /** Characters of a prefix of a name drawn from a prefix of `fullname` all occur in `fullname`. */
  lemma CharsThroughPrefixes(r: string, name: string, path: string, fullname: string)
    requires r <= name && CharsWithin(name, path) && path <= fullname
    ensures CharsWithin(r, fullname)
  {
    SliceCharsWithin(name, 0, |r|);
    assert name[0..|r|] == r;
    SliceCharsWithin(fullname, 0, |path|);
    assert fullname[0..|path|] == path;
  }

  /** Nothing is printed but the terminator exactly when the name is empty or all separators. */
  lemma EmptyExactlyForSeparators(fullname: string, suffix: string)
    ensures Basename(fullname, suffix) == "" <==> OnlySeparators(fullname)
  {
    var path := TrimTrailingSeparators(fullname);
    if path != "" {
      assert fullname[|path| - 1] != '/';
    }
  }

  /** Trimming ignores any number of separators appended to the path. */
  lemma {:induction false} TrimIgnoresAppendedSeparators(p: string, k: nat)
    ensures TrimTrailingSeparators(p + Slashes(k)) == TrimTrailingSeparators(p)
    decreases k
  {
    if k > 0 {
      var q := p + Slashes(k);
      assert q[|q| - 1] == '/';
      assert q[..|q| - 1] == p + Slashes(k - 1);
      assert TrimTrailingSeparators(q) == TrimTrailingSeparators(p + Slashes(k - 1));
      TrimIgnoresAppendedSeparators(p, k - 1);
    } else {
      assert p + Slashes(0) == p;
    }
  }

  /** Trailing separators never change the name printed. */
  lemma TrailingSeparatorsIgnored(p: string, k: nat, suffix: string)
    ensures Basename(p + Slashes(k), suffix) == Basename(p, suffix)
  {
    TrimIgnoresAppendedSeparators(p, k);
  }

  /** A name with no separator is its own last component, so only the suffix is removed. */
  lemma WholeNameWithoutSeparator(p: string, suffix: string)
    requires p != "" && '/' !in p
    ensures Basename(p, suffix) == StripSuffix(p, suffix)
  {
    assert p[|p| - 1] in p;
    assert TrimTrailingSeparators(p) == p;
    SegmentStartWithoutSeparator(p);
    LastComponentOfWhole(p);
  }

  /** The directory part before the last separator is removed. */
  lemma LeadingDirectoriesRemoved(dir: string, name: string, suffix: string)
    requires name != "" && name != "." && '/' !in name
    ensures Basename(dir + "/" + name, suffix) == StripSuffix(name, suffix)
  {
    assert name[|name| - 1] in name;
    LastComponentOfName(dir, name);
  }

  /** Separators that trimming removes do not change the last component, as long as something is left. */
  lemma {:induction false} LastComponentOfTrimmed(p: string)
    requires TrimTrailingSeparators(p) != ""
    ensures LastComponent(TrimTrailingSeparators(p)) == LastComponent(p)
    decreases |p|
  {
    if p[|p| - 1] == '/' {
      var q := p[..|p| - 1];
      LastComponentOfTrimmed(q);
      LastComponentIgnoresTrailingSeparator(q);
      assert q + "/" == p;
    }
  }

  /** A "." after a separator is not a component: `a/.` names the same thing as `a`. */
  lemma InteriorDotIgnored(dir: string, suffix: string)
    requires !OnlySeparators(dir)
    ensures Basename(dir + "/.", suffix) == Basename(dir, suffix)
  {
    var p := dir + "/.";
    assert p[|p| - 1] == '.';
    LastComponentSkipsInteriorDot(dir);
    LastComponentOfTrimmed(dir);
  }

  /** A rooted path whose only name is "." prints the root itself, whatever the suffix. */
  lemma RootBeforeDot(k: nat, suffix: string)
    requires k >= 1
    ensures Basename(Slashes(k) + ".", suffix) == "/"
  {
    var p := Slashes(k) + ".";
    assert p[|p| - 1] == '.';
    if k == 1 {
      SegmentStartAfterSeparator("", ".");
      assert "" + "/" + "." == p;
    } else {
      LastComponentOfSlashes(k - 1);
      LastComponentSkipsInteriorDot(Slashes(k - 1));
      assert Slashes(k - 1) + "/." == p;
    }
  }

  /** The suffix only ever applies to the last component. */
  lemma SuffixAppliesToLastComponent(p: string, suffix: string)
    ensures Basename(p, suffix) == StripSuffix(Basename(p, ""), suffix)
  {
  }

  /** Printing the name of a name changes nothing, except for the root. */
  lemma BasenameIdempotent(p: string)
    requires Basename(p, "") != "/"
    ensures Basename(Basename(p, ""), "") == Basename(p, "")
  {
    var n := Basename(p, "");
    if n != "" {
      assert '/' !in n;
      WholeNameWithoutSeparator(n, "");
    }
  }

  /** The root is the one exception: "/." prints "/", but "/" itself prints the empty line. */
  lemma RootNotIdempotent()
    ensures Basename("/.", "") == "/"
    ensures Basename("/", "") == ""
  {
    RootBeforeDot(1, "");
    assert Slashes(1) + "." == "/.";
  }

  // ---------------------------------------------------------------------
  // The command: operands, options and output
  // ---------------------------------------------------------------------

  /** The parsed options: -a/--multiple, -s/--suffix SUFFIX, -z/--zero. */
  datatype Options = Options(multiple: bool, suffix: Option<string>, zero: bool)

  /** The two usage errors; each exits with status 1 before anything is printed. */
  datatype UsageError = MissingOperand | ExtraOperand(operand: string)

  /** Whether every operand is a name: under -a, and under -s, which implies -a. */
  predicate MultiplePaths(opts: Options)
    ensures opts.suffix.Some? ==> MultiplePaths(opts)
    ensures opts.multiple ==> MultiplePaths(opts)
    ensures opts.suffix.None? && !opts.multiple ==> !MultiplePaths(opts)
  {
    opts.suffix.Some? || opts.multiple
  }

  /** The terminator after each printed name: NUL exactly under -z, newline exactly without it. */
  function LineEnding(opts: Options): (c: char)
    ensures c == '\0' <==> opts.zero
    ensures c == '\n' <==> !opts.zero
  {
    if opts.zero then '\0' else '\n'
  }

  /**
   * The suffix to strip: the -s value when given; otherwise, without -a, the
   * second operand if there is one; otherwise none. Under -a or -s it is
   * never taken from the operands.
   */
  function SelectedSuffix(operands: seq<string>, opts: Options): (suffix: string)
    ensures opts.suffix.Some? ==> suffix == opts.suffix.value
    ensures MultiplePaths(opts) && opts.suffix.None? ==> suffix == ""
    ensures !MultiplePaths(opts) && |operands| >= 2 ==> suffix == operands[1]
    ensures !MultiplePaths(opts) && |operands| < 2 ==> suffix == ""
  {
    if opts.suffix.Some? then opts.suffix.value
    else if !opts.multiple && |operands| > 1 then operands[1]
    else ""
  }

  /** The operands treated as names: all of them, in order, under -a or -s; else only the first. */
  function SelectedPaths(operands: seq<string>, opts: Options): (paths: seq<string>)
    requires operands != []
    ensures MultiplePaths(opts) ==> paths == operands
    ensures !MultiplePaths(opts) ==> paths == [operands[0]]
  {
    if MultiplePaths(opts) then operands else operands[..1]
  }

  /** The records printed for `paths`, in order, each name followed by `ending`. */
  function Emit(paths: seq<string>, suffix: string, ending: char): (records: seq<string>)
    ensures |records| == |paths|
    ensures forall i :: 0 <= i < |paths| ==> records[i] == Basename(paths[i], suffix) + [ending]
    decreases |paths|
  {
    if paths == [] then []
    else Emit(paths[..|paths| - 1], suffix, ending) + [Basename(paths[|paths| - 1], suffix) + [ending]]
  }

  /**
   * One run of the command on the free operands: a usage error, or the
   * records printed to standard output.
   */
  function Run(operands: seq<string>, opts: Options): (r: Result<seq<string>, UsageError>)
    ensures r == Err(MissingOperand) <==> operands == []
    ensures (r.Err? && r.error.ExtraOperand?) <==> operands != [] && !MultiplePaths(opts) && |operands| > 2
    ensures r.Err? && r.error.ExtraOperand? ==> r.error.operand == operands[2]
    ensures r.Ok? ==> |r.value| == if MultiplePaths(opts) then |operands| else 1
  {
    if operands == [] then Err(MissingOperand)
    else if !MultiplePaths(opts) && |operands| > 2 then Err(ExtraOperand(operands[2]))
    else Ok(Emit(SelectedPaths(operands, opts), SelectedSuffix(operands, opts), LineEnding(opts)))
  }

  /** The process exit status of a run. */
  function ExitStatus(r: Result<seq<string>, UsageError>): (code: int)
    ensures code == 0 <==> r.Ok?
    ensures r.Err? ==> code == 1
  {
    if r.Ok? then 0 else 1
  }

  /** Without -a or -s: one name, and a second operand is its suffix. */
  lemma SingleName(operands: seq<string>, opts: Options)
    requires !MultiplePaths(opts) && 1 <= |operands| <= 2
    ensures Run(operands, opts)
         == Ok([Basename(operands[0], if |operands| == 2 then operands[1] else "") + [LineEnding(opts)]])
  {
    var records := Run(operands, opts).value;
    assert records == [records[0]];
  }

  /**
   * With -a or -s: every operand is a name, printed in order, and the suffix
   * is the -s value or none at all (never an operand).
   */
  lemma EveryOperandIsAName(operands: seq<string>, opts: Options)
    requires MultiplePaths(opts) && operands != []
    ensures Run(operands, opts).Ok?
    ensures var records := Run(operands, opts).value;
      forall i :: 0 <= i < |operands| ==>
        records[i] == Basename(operands[i], if opts.suffix.Some? then opts.suffix.value else "") + [LineEnding(opts)]
  {
  }

  /** Everything written to standard output, record after record. */
  function Concat(records: seq<string>): string
    decreases |records|
  {
    if records == [] then "" else Concat(records[..|records| - 1]) + records[|records| - 1]
  }

  /** How many times `c` occurs in `s`. */
  function Count(s: string, c: char): nat
    decreases |s|
  {
    if s == "" then 0 else Count(s[..|s| - 1], c) + (if s[|s| - 1] == c then 1 else 0)
  }

  /** Occurrences of `c` in a concatenation are the sum of the occurrences in each part. */
  lemma {:induction false} CountAppend(a: string, b: string, c: char)
    ensures Count(a + b, c) == Count(a, c) + Count(b, c)
    decreases |b|
  {
    if b != "" {
      var ab := a + b;
      assert |ab| > 0;
      assert ab[..|ab| - 1] == a + b[..|b| - 1];
      assert ab[|ab| - 1] == b[|b| - 1];
      CountAppend(a, b[..|b| - 1], c);
    } else {
      assert a + b == a;
    }
  }

  /** A record holding `ending` only at its end adds exactly one `ending`. */
  lemma CountRecord(name: string, c: char)
    requires c !in name
    ensures Count(name + [c], c) == 1
  {
    CountAbsent(name, c);
    assert (name + [c])[..|name|] == name;
  }

  /** A string without `c` holds no occurrence of it. */
  lemma {:induction false} CountAbsent(s: string, c: char)
    requires c !in s
    ensures Count(s, c) == 0
    decreases |s|
  {
    if s != "" {
      assert forall x :: x in s[..|s| - 1] ==> x in s;
      CountAbsent(s[..|s| - 1], c);
    }
  }

  /** When no record holds `c` before its last character, `c` separates exactly the records. */
  lemma {:induction false} TerminatorsCountRecords(records: seq<string>, names: seq<string>, c: char)
    requires |records| == |names|
    requires forall i :: 0 <= i < |records| ==> records[i] == names[i] + [c] && c !in names[i]
    ensures Count(Concat(records), c) == |records|
    decreases |records|
  {
    if records != [] {
      var n := |records| - 1;
      TerminatorsCountRecords(records[..n], names[..n], c);
      CountAppend(Concat(records[..n]), records[n], c);
      CountRecord(names[n], c);
    }
  }

  /** The index of the first `c` in `s`, or `|s|` when there is none. */
  function FirstIndex(s: string, c: char): (k: nat)
    ensures k <= |s|
    ensures forall i :: 0 <= i < k ==> s[i] != c
    ensures k < |s| ==> s[k] == c
    decreases |s|
  {
    if s == "" || s[0] == c then 0 else 1 + FirstIndex(s[1..], c)
  }

  /**
   * Reading standard output back: the pieces of `s` ended by `c`, front to
   * back, with a final unterminated piece kept as the last line.
   */
  function Lines(s: string, c: char): seq<string>
    decreases |s|
  {
    if s == "" then []
    else
      var k := FirstIndex(s, c);
      if k == |s| then [s] else [s[..k]] + Lines(s[k + 1..], c)
  }

  /** Concatenation read front to back: the first record, then the rest. */
  lemma {:induction false} ConcatFront(records: seq<string>)
    requires records != []
    ensures Concat(records) == records[0] + Concat(records[1..])
    decreases |records|
  {
    var n := |records| - 1;
    if n > 0 {
      ConcatFront(records[..n]);
      assert records[..n][1..] == records[1..n];
      assert records[1..][..|records[1..]| - 1] == records[1..n];
    } else {
      assert records[1..] == [];
    }
  }

  /** The first `c` after a name without `c` ends that name. */
  lemma {:induction false} FirstIndexAfterName(name: string, c: char, rest: string)
    requires c !in name
    ensures FirstIndex(name + [c] + rest, c) == |name|
    decreases |name|
  {
    var s := name + [c] + rest;
    if name != "" {
      assert s[0] == name[0];
      assert s[1..] == name[1..] + [c] + rest;
      FirstIndexAfterName(name[1..], c, rest);
    }
  }

  /** A terminated name at the front of the output reads back as the first line. */
  lemma FirstLine(name: string, c: char, rest: string)
    requires c !in name
    ensures Lines(name + [c] + rest, c) == [name] + Lines(rest, c)
  {
    var s := name + [c] + rest;
    FirstIndexAfterName(name, c, rest);
    assert s[..|name|] == name;
    assert s[|name| + 1..] == rest;
  }

  /** Records that each end in `c`, and hold it nowhere else, read back as their names. */
  lemma {:induction false} LinesOfRecords(records: seq<string>, names: seq<string>, c: char)
    requires |records| == |names|
    requires forall i :: 0 <= i < |records| ==> records[i] == names[i] + [c] && c !in names[i]
    ensures Lines(Concat(records), c) == names
    decreases |records|
  {
    if records != [] {
      ConcatFront(records);
      LinesOfRecords(records[1..], names[1..], c);
      FirstLine(names[0], c, Concat(records[1..]));
      assert names == [names[0]] + names[1..];
    }
  }

  /**
   * The output can be read back: when no operand contains the terminator
   * (under -z always, as operands cannot hold NUL), standard output holds
   * exactly one terminator per printed name, and splitting it at the
   * terminators gives back each printed name.
   */
  lemma OneTerminatorPerName(operands: seq<string>, opts: Options)
    requires forall i :: 0 <= i < |operands| ==> LineEnding(opts) !in operands[i]
    requires Run(operands, opts).Ok?
    ensures var records := Run(operands, opts).value;
      Count(Concat(records), LineEnding(opts)) == |records|
    ensures var records := Run(operands, opts).value;
      var lines := Lines(Concat(records), LineEnding(opts));
      |lines| == |records| && forall i :: 0 <= i < |records| ==> records[i] == lines[i] + [LineEnding(opts)]
  {
    var records := Run(operands, opts).value;
    var paths, suffix := SelectedPaths(operands, opts), SelectedSuffix(operands, opts);
    var names := seq(|paths|, i requires 0 <= i < |paths| => Basename(paths[i], suffix));
    TerminatorsCountRecords(records, names, LineEnding(opts));
    LinesOfRecords(records, names, LineEnding(opts));
  }

  /**
   * The basename stated through the front-to-back reading of the path: the
   * text of the last of its components, with the suffix stripped.
   */
  lemma BasenameIsLastOfComponents(p: string, suffix: string)
    requires !OnlySeparators(p)
    ensures Components(p) != []
    ensures Basename(p, suffix) == StripSuffix(Text(LastOf(Components(p)).value), suffix)
  {
    LastComponentOfTrimmed(p);
    LastComponentIsLast(p);
  }
}
