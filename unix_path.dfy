/**
 * How a Unix path string breaks into components, as the standard library's
 * `Path::components` reads it when '/' is the only separator:
 *  - a leading '/' is the root directory;
 *  - repeated separators collapse, so empty segments vanish;
 *  - a "." segment vanishes unless it is the very first segment of a relative path;
 *  - ".." is the parent directory, and every other segment is a plain name.
 */
module UnixPath {
  import opened Wrappers

  /** k separators in a row. */
  function Slashes(k: nat): (r: string)
    ensures |r| == k
    ensures forall i :: 0 <= i < k ==> r[i] == '/'
  {
    if k == 0 then "" else Slashes(k - 1) + "/"
  }

  /** Where the final segment of p begins: just after its last separator, or 0 when it has none. */
  function SegmentStart(p: string): (k: nat)
    ensures k <= |p|
    ensures forall i :: k <= i < |p| ==> p[i] != '/'
    ensures k > 0 ==> p[k - 1] == '/'
    decreases |p|
  {
    if p == [] then 0
    else if p[|p| - 1] == '/' then |p|
    else SegmentStart(p[..|p| - 1])
  }

  /** The final segment starts right after the separator that precedes a separator-free tail. */
  lemma {:induction false} SegmentStartAfterSeparator(d: string, n: string)
    requires '/' !in n
    ensures SegmentStart(d + "/" + n) == |d| + 1
    decreases |n|
  {
    var p := d + "/" + n;
    if n == "" {
      assert p == d + "/";
    } else {
      var init := n[..|n| - 1];
      assert p[..|p| - 1] == d + "/" + init;
      assert p[|p| - 1] == n[|n| - 1];
      assert n[|n| - 1] in n;
      SegmentStartAfterSeparator(d, init);
    }
  }

  /** A path without separators is one segment starting at 0. */
  lemma {:induction false} SegmentStartWithoutSeparator(p: string)
    requires '/' !in p
    ensures SegmentStart(p) == 0
    decreases |p|
  {
    if p != [] {
      assert p[|p| - 1] in p;
      assert forall c :: c in p[..|p| - 1] ==> c in p;
      SegmentStartWithoutSeparator(p[..|p| - 1]);
    }
  }

  /** Segments joined back together with one separator between neighbours. */
  function Join(segs: seq<string>): string
    requires |segs| >= 1
    decreases |segs|
  {
    if |segs| == 1 then segs[0] else Join(segs[..|segs| - 1]) + "/" + segs[|segs| - 1]
  }

  /** The maximal separator-free pieces of p; one more piece than p has separators. */
  function Split(p: string): (segs: seq<string>)
    ensures |segs| >= 1
    decreases |p|
  {
    var k := SegmentStart(p);
    if k == 0 then [p] else Split(p[..k - 1]) + [p[k..]]
  }

  /** Joining the segments of p gives p back. */
  lemma {:induction false} JoinSplit(p: string)
    ensures Join(Split(p)) == p
    decreases |p|
  {
    var k := SegmentStart(p);
    if k > 0 {
      var d := p[..k - 1];
      var segs := Split(d) + [p[k..]];
      assert segs[..|segs| - 1] == Split(d);
      JoinSplit(d);
      assert d + "/" + p[k..] == p;
    }
  }

  /** Appending a separator and a separator-free piece appends one segment. */
  lemma SplitAppend(d: string, n: string)
    requires '/' !in n
    ensures Split(d + "/" + n) == Split(d) + [n]
  {
    var p := d + "/" + n;
    SegmentStartAfterSeparator(d, n);
    assert p[..|d|] == d;
    assert p[|d| + 1..] == n;
  }

  /** Split undoes Join for separator-free pieces, so the two are inverse. */
  lemma {:induction false} SplitJoin(segs: seq<string>)
    requires |segs| >= 1
    requires forall i :: 0 <= i < |segs| ==> '/' !in segs[i]
    ensures Split(Join(segs)) == segs
    decreases |segs|
  {
    if |segs| == 1 {
      SegmentStartWithoutSeparator(segs[0]);
    } else {
      var init, last := segs[..|segs| - 1], segs[|segs| - 1];
      assert Join(segs) == Join(init) + "/" + last;
      SplitJoin(init);
      SplitAppend(Join(init), last);
      assert init + [last] == segs;
    }
  }

  /** The kinds of component a Unix path yields. */
  datatype Component = RootDir | CurDir | ParentDir | Normal(name: string)

  /**
   * The text a component stands for in the path (its `as_os_str`): "/" for
   * the root, and otherwise the segment that reads back as the component.
   */
  function Text(c: Component): (r: string)
    ensures c == RootDir ==> r == "/"
    ensures c != RootDir && !(c.Normal? && (c.name == "." || c.name == "..")) ==> Whole(r) == c
  {
    match c
    case RootDir => "/"
    case CurDir => "."
    case ParentDir => ".."
    case Normal(name) => name
  }

  /** A segment after the first one: empty segments and "." are dropped. */
  function Interior(seg: string): seq<Component>
  {
    if seg == "" || seg == "." then []
    else if seg == ".." then [ParentDir]
    else [Normal(seg)]
  }

  /** The components of all segments after the first, in order. */
  function InteriorAll(segs: seq<string>): seq<Component>
    decreases |segs|
  {
    if segs == [] then [] else InteriorAll(segs[..|segs| - 1]) + Interior(segs[|segs| - 1])
  }

  /** The first segment: empty means the path starts at the root, and a leading "." is kept. */
  function Leading(first: string): seq<Component>
  {
    if first == "" then [RootDir]
    else if first == "." then [CurDir]
    else Interior(first)
  }

  /** The components of a non-empty path, given its segments. */
  function OfSegments(segs: seq<string>): seq<Component>
    requires |segs| >= 1
  {
    Leading(segs[0]) + InteriorAll(segs[1..])
  }

  /** The components of p, front to back. */
  function Components(p: string): (cs: seq<Component>)
    ensures cs == [] <==> p == []
  {
    if p == [] then [] else OfSegments(Split(p))
  }

  /** The segments after the first, read one more segment at a time. */
  lemma InteriorAllAppend(segs: seq<string>, last: string)
    ensures InteriorAll(segs + [last]) == InteriorAll(segs) + Interior(last)
  {
    assert (segs + [last])[..|segs|] == segs;
  }

  /** One more segment adds the components of that segment. */
  lemma OfSegmentsAppend(segs: seq<string>, n: string)
    requires |segs| >= 1
    ensures OfSegments(segs + [n]) == OfSegments(segs) + Interior(n)
  {
    assert (segs + [n])[1..] == segs[1..] + [n];
    InteriorAllAppend(segs[1..], n);
  }

  /** Appending `/n` to a non-empty path appends the components of the segment n. */
  lemma ComponentsAppend(p: string, n: string)
    requires p != [] && '/' !in n
    ensures Components(p + "/" + n) == Components(p) + Interior(n)
  {
    SplitAppend(p, n);
    OfSegmentsAppend(Split(p), n);
  }

  /** Repeated separators collapse: a trailing separator adds no component to a non-empty path. */
  lemma ComponentsIgnoreTrailingSeparator(p: string)
    requires p != []
    ensures Components(p + "/") == Components(p)
  {
    assert p + "/" + "" == p + "/";
    ComponentsAppend(p, "");
    assert Interior("") == [];
  }

  /** A "." after a separator adds no component to a non-empty path. */
  lemma ComponentsDropInteriorDot(p: string)
    requires p != []
    ensures Components(p + "/.") == Components(p)
  {
    assert p + "/" + "." == p + "/.";
    ComponentsAppend(p, ".");
    assert Interior(".") == [];
  }

  /** A '/' followed by one segment is the root and that segment's components. */
  lemma ComponentsRooted(n: string)
    requires '/' !in n
    ensures Components("/" + n) == [RootDir] + Interior(n)
  {
    assert "" + "/" + n == "/" + n;
    assert Split("") == [""];
    SplitAppend("", n);
    OfSegmentsAppend([""], n);
  }

  /** The component a separator-free first segment stands for. */
  function Whole(seg: string): Component
  {
    if seg == "." then CurDir else if seg == ".." then ParentDir else Normal(seg)
  }

  /** A path without separators is a single component whose text is the path. */
  lemma SingleComponent(p: string)
    requires p != [] && SegmentStart(p) == 0
    ensures Components(p) == [Whole(p)]
  {
    assert Split(p) == [p];
  }

  /** Every character of a is a character of b. */
  predicate CharsWithin(a: string, b: string)
  {
    forall ch :: ch in a ==> ch in b
  }

  /** Characters of a slice are characters of the whole. */
  lemma SliceCharsWithin(p: string, i: nat, j: nat)
    requires i <= j <= |p|
    ensures CharsWithin(p[i..j], p)
  {
    forall ch | ch in p[i..j] ensures ch in p {
      var k :| 0 <= k < j - i && p[i..j][k] == ch;
      assert p[i + k] == ch;
    }
  }

  /**
   * The last component of p, found by reading p backwards: trailing
   * separators and "." segments after a separator are skipped, and a path
   * left with nothing before its first separator ends at the root.
   */
  function LastComponent(p: string): (c: Option<Component>)
    ensures c.None? <==> p == []
    ensures c.Some? ==> Text(c.value) != "" && CharsWithin(Text(c.value), p)
    ensures c.Some? && c.value != RootDir ==> '/' !in Text(c.value)
    ensures c == Some(RootDir) ==> p[0] == '/'
    decreases |p|
  {
    if p == [] then None
    else
      var k := SegmentStart(p);
      var n := p[k..];
      SliceCharsWithin(p, k, |p|);
      if k == 0 then
        assert n == p;
        Some(Whole(p))
      else if n == "" || n == "." then
        var d := p[..k - 1];
        if d == [] then Some(RootDir)
        else
          SliceCharsWithin(p, 0, k - 1);
          assert p[0] == d[0];
          LastComponent(d)
      else Some(if n == ".." then ParentDir else Normal(n))
  }

  /** A path with a separator is the part before its last separator, '/', and the final segment. */
  lemma SplitAtLastSeparator(p: string)
    requires SegmentStart(p) > 0
    ensures p == p[..SegmentStart(p) - 1] + "/" + p[SegmentStart(p)..]
  {
  }

  /** Reading backwards past one separator: an empty or "." final segment defers to what precedes it. */
  lemma LastComponentStep(d: string, n: string)
    requires d != [] && '/' !in n
    ensures LastComponent(d + "/" + n)
         == if n == "" || n == "." then LastComponent(d) else Some(if n == ".." then ParentDir else Normal(n))
  {
    var q := d + "/" + n;
    SegmentStartAfterSeparator(d, n);
    assert q[..|d|] == d;
    assert q[|d| + 1..] == n;
  }

  /** Reading backwards to the leading '/': an empty or "." final segment leaves the root. */
  lemma LastComponentRooted(n: string)
    requires '/' !in n
    ensures LastComponent("/" + n)
         == if n == "" || n == "." then Some(RootDir) else Some(if n == ".." then ParentDir else Normal(n))
  {
    var q := "/" + n;
    assert q == "" + "/" + n;
    SegmentStartAfterSeparator("", n);
    assert q[1..] == n;
  }

  /** The last element of a sequence of components, if there is one. */
  function LastOf(cs: seq<Component>): Option<Component>
  {
    if cs == [] then None else Some(cs[|cs| - 1])
  }

  /** One separator-free segment after a '/' keeps the two readings in agreement. */
  lemma AgreeStep(d: string, n: string)
    requires d != [] && '/' !in n
    requires LastComponent(d) == LastOf(Components(d))
    ensures LastComponent(d + "/" + n) == LastOf(Components(d + "/" + n))
  {
    LastComponentStep(d, n);
    ComponentsAppend(d, n);
  }

  /** The two readings agree on a '/' followed by one separator-free segment. */
  lemma AgreeRooted(n: string)
    requires '/' !in n
    ensures LastComponent("/" + n) == LastOf(Components("/" + n))
  {
    LastComponentRooted(n);
    ComponentsRooted(n);
  }

  /** The final segment holds no separator. */
  lemma FinalSegmentWithoutSeparator(p: string)
    ensures '/' !in p[SegmentStart(p)..]
  {
    var k := SegmentStart(p);
    forall i | 0 <= i < |p| - k ensures p[k..][i] != '/' {
      assert p[k..][i] == p[k + i];
    }
  }

  /** The two readings agree on a path split at its last separator, given that they agree before it. */
  lemma AgreeAtLastSeparator(p: string)
    requires SegmentStart(p) > 0
    requires SegmentStart(p) > 1 ==> LastComponent(p[..SegmentStart(p) - 1]) == LastOf(Components(p[..SegmentStart(p) - 1]))
    ensures LastComponent(p) == LastOf(Components(p))
  {
    var k := SegmentStart(p);
    var d, n := p[..k - 1], p[k..];
    SplitAtLastSeparator(p);
    FinalSegmentWithoutSeparator(p);
    if d == [] {
      assert "/" + n == p;
      AgreeRooted(n);
    } else {
      assert d + "/" + n == p;
      AgreeStep(d, n);
    }
  }

  /** The backward reading agrees with the last of the components read front to back. */
  lemma {:induction false} LastComponentIsLast(p: string)
    ensures LastComponent(p) == LastOf(Components(p))
    decreases |p|
  {
    if p != [] {
      var k := SegmentStart(p);
      if k == 0 {
        LastComponentOfWhole(p);
        SingleComponent(p);
      } else {
        if k > 1 {
          LastComponentIsLast(p[..k - 1]);
        }
        AgreeAtLastSeparator(p);
      }
    }
  }

  /** A trailing separator does not change the last component of a non-empty path. */
  lemma LastComponentIgnoresTrailingSeparator(p: string)
    requires p != []
    ensures LastComponent(p + "/") == LastComponent(p)
  {
    var q := p + "/";
    assert q[..|q| - 1] == p;
  }

  /** A "." after a separator does not change the last component of a non-empty path. */
  lemma LastComponentSkipsInteriorDot(p: string)
    requires p != []
    ensures LastComponent(p + "/.") == LastComponent(p)
  {
    var q := p + "/.";
    assert q == p + "/" + ".";
    SegmentStartAfterSeparator(p, ".");
    assert q[..|p|] == p;
    assert q[|p| + 1..] == ".";
  }

  /** The last component of `d/n` is the segment n itself when n is an ordinary name or "..". */
  lemma LastComponentOfName(d: string, n: string)
    requires n != "" && n != "." && '/' !in n
    ensures LastComponent(d + "/" + n) == Some(if n == ".." then ParentDir else Normal(n))
  {
    var q := d + "/" + n;
    SegmentStartAfterSeparator(d, n);
    assert q[|d| + 1..] == n;
  }

  /** A path without separators is its own single component: the path itself. */
  lemma LastComponentOfWhole(p: string)
    requires p != [] && SegmentStart(p) == 0
    ensures LastComponent(p) == Some(Whole(p))
  {
    assert p[0..] == p;
  }

  /** One or more separators and nothing else are the root. */
  lemma {:induction false} LastComponentOfSlashes(k: nat)
    requires k >= 1
    ensures LastComponent(Slashes(k)) == Some(RootDir)
    decreases k
  {
    if k > 1 {
      LastComponentOfSlashes(k - 1);
      LastComponentIgnoresTrailingSeparator(Slashes(k - 1));
    } else {
      assert Slashes(1)[..0] == [];
    }
  }
}
