/** `getopt` with argument permutation: the struct kept across calls and the array it rearranges. */
module Getopt {
  import opened Bytes
  import opened GetoptSpec

  /** `s` with its blocks `[b, m)` and `[m, t)` exchanged. */
  function Rotated(s: seq<string>, b: nat, m: nat, t: nat): seq<string>
    requires b <= m <= t <= |s|
  {
    s[..b] + s[m..t] + s[b..m] + s[t..]
  }

  /** `s` with the blocks of `len` elements at `x` and `y` swapped. */
  function Swapped(s: seq<string>, x: nat, y: nat, len: nat): seq<string>
    requires x + len <= y && y + len <= |s|
  {
    s[..x] + s[y..y + len] + s[x + len..y] + s[x..x + len] + s[y + len..]
  }

  lemma RotatedPieces(p: seq<string>, x: seq<string>, y: seq<string>, z: seq<string>)
    ensures Rotated(p + x + y + z, |p|, |p| + |x|, |p| + |x| + |y|) == p + y + x + z
  {
    var s := p + x + y + z;
    assert s[..|p|] == p && s[|p|..|p| + |x|] == x && s[|p| + |x|..|p| + |x| + |y|] == y && s[|p| + |x| + |y|..] == z;
  }

  lemma SwappedPieces(p: seq<string>, x: seq<string>, m: seq<string>, y: seq<string>, z: seq<string>)
    requires |x| == |y|
    ensures Swapped(p + x + m + y + z, |p|, |p| + |x| + |m|, |x|) == p + y + m + x + z
  {
    var s := p + x + m + y + z;
    var i, j := |p| + |x|, |p| + |x| + |m|;
    assert s[..|p|] == p && s[|p|..i] == x && s[i..j] == m && s[j..j + |x|] == y && s[j + |x|..] == z;
  }

  lemma Cut(s: seq<string>, i: nat, j: nat)
    requires i <= j <= |s|
    ensures s[..j] == s[..i] + s[i..j]
  {
  }

  /** After the smaller block has changed places with the far end of the larger one, a smaller rotation is left. */
  lemma SwapThenRotateTop(s: seq<string>, b: nat, m: nat, t: nat)
    requires b < m && t <= |s| && t - m > m - b
    ensures var len := m - b; Rotated(Swapped(s, b, t - len, len), b, m, t - len) == Rotated(s, b, m, t)
  {
    hide Rotated, Swapped;
    var c := t - (m - b);
    var p, x, y1, y2, z := s[..b], s[b..m], s[m..c], s[c..t], s[t..];
    Cut(s, b, m);
    Cut(s, m, c);
    Cut(s, c, t);
    assert s == p + x + y1 + y2 + z;
    SwappedPieces(p, x, y1, y2, z);
    RotatedPieces(p, y2, y1, x + z);
    assert p + y2 + y1 + (x + z) == p + y2 + y1 + x + z;
    RotatedPieces(p, x, y1 + y2, z);
    assert p + x + (y1 + y2) + z == s;
    assert p + y1 + y2 + (x + z) == p + (y1 + y2) + x + z;
  }

  lemma SwapThenRotateBottom(s: seq<string>, b: nat, m: nat, t: nat)
    requires b < m < t <= |s| && t - m <= m - b
    ensures var len := t - m; Rotated(Swapped(s, b, m, len), b + len, m, t) == Rotated(s, b, m, t)
  {
    hide Rotated, Swapped;
    var c := b + (t - m);
    var p, x1, x2, y, z := s[..b], s[b..c], s[c..m], s[m..t], s[t..];
    Cut(s, b, c);
    Cut(s, c, m);
    Cut(s, m, t);
    assert s == p + x1 + x2 + y + z;
    SwappedPieces(p, x1, x2, y, z);
    RotatedPieces(p + y, x2, x1, z);
    RotatedPieces(p, x1 + x2, y, z);
    assert p + (x1 + x2) + y + z == s;
    assert (p + y) + x1 + x2 + z == p + y + (x1 + x2) + z;
  }

  lemma RotateNothing(s: seq<string>, b: nat, m: nat, t: nat)
    requires b <= m <= t <= |s| && (b == m || m == t)
    ensures Rotated(s, b, m, t) == s
  {
  }

  /** The element at `k` once the blocks are swapped. */
  function Mirror(s: seq<string>, x: nat, y: nat, len: nat, k: nat): string
    requires x + len <= y && y + len <= |s| && k < |s|
  {
    if x <= k < x + len then s[k - x + y] else if y <= k < y + len then s[k - y + x] else s[k]
  }

  lemma SwappedAt(s: seq<string>, x: nat, y: nat, len: nat, k: nat)
    requires x + len <= y && y + len <= |s| && k < |s|
    ensures |Swapped(s, x, y, len)| == |s| && Swapped(s, x, y, len)[k] == Mirror(s, x, y, len, k)
  {
    var a, b, c, d, e := s[..x], s[y..y + len], s[x + len..y], s[x..x + len], s[y + len..];
    var u := Swapped(s, x, y, len);
    assert u == (a + b) + c + d + e;
    if k < x + len {
      assert u[k] == (a + b)[k];
    } else if k < y {
      assert u[k] == c[k - x - len];
    } else if k < y + len {
      assert u[k] == d[k - y];
    } else {
      assert u[k] == e[k - y - len];
    }
  }

  lemma SwapStep(s: seq<string>, x: nat, y: nat, i: nat)
    requires x + i < y && y + i < |s|
    ensures |Swapped(s, x, y, i)| == |s|
    ensures var u := Swapped(s, x, y, i); u[x + i := u[y + i]][y + i := u[x + i]] == Swapped(s, x, y, i + 1)
  {
    hide Swapped;
    SwappedAt(s, x, y, i, x + i);
    SwappedAt(s, x, y, i, y + i);
    SwappedAt(s, x, y, i + 1, x);
    var u, w := Swapped(s, x, y, i), Swapped(s, x, y, i + 1);
    var v := u[x + i := u[y + i]][y + i := u[x + i]];
    forall k | 0 <= k < |s| ensures v[k] == w[k] {
      SwappedAt(s, x, y, i, k);
      SwappedAt(s, x, y, i + 1, k);
    }
  }

  method SwapBlocks(argv: array<string>, x: nat, y: nat, len: nat)
    requires x + len <= y && y + len <= argv.Length
    modifies argv
    ensures argv[..] == Swapped(old(argv[..]), x, y, len)
  {
    ghost var s := argv[..];
    SwapNothing(s, x, y);
    for i := 0 to len
      invariant argv[..] == Swapped(s, x, y, i)
    {
      hide Swapped;
      SwapStep(s, x, y, i);
      ghost var u := argv[..];
      var tem := argv[x + i];
      argv[x + i] := argv[y + i];
      argv[y + i] := tem;
      assert argv[..] == u[x + i := u[y + i]][y + i := u[x + i]];
    }
  }

  lemma SwapNothing(s: seq<string>, x: nat, y: nat)
    requires x <= y <= |s|
    ensures Swapped(s, x, y, 0) == s
  {
    assert s[y..y] == [] && s[x..x] == [];
  }

  // ----- How the array is laid out between calls -----

  /**
   * `s` is a rearrangement of `args` in which the taken elements lie before `first` and from `last` to `optind`, the
   * operands between them, and everything before `start` and from `optind` on is as it was.
   */
  predicate Layout(s: seq<string>, args: seq<string>, start: nat, first: nat, last: nat, optind: nat, taken: seq<string>, operands: seq<string>) {
    && start <= first <= last <= optind <= |s| == |args|
    && s[..start] == args[..start] && s[optind..] == args[optind..]
    && s[start..first] + s[last..optind] == taken && s[first..last] == operands
  }

  lemma RotateLayout(s: seq<string>, args: seq<string>, start: nat, first: nat, last: nat, optind: nat, taken: seq<string>, operands: seq<string>)
    requires Layout(s, args, start, first, last, optind, taken, operands)
    ensures Layout(Rotated(s, first, last, optind), args, start, first + (optind - last), optind, optind, taken, operands)
  {
    var u := Rotated(s, first, last, optind);
    var mid := first + (optind - last);
    assert u[..first] == s[..first] && u[first..mid] == s[last..optind] && u[mid..optind] == s[first..last] && u[optind..] == s[optind..];
    assert u[..start] == s[..first][..start] == s[..start];
    assert u[start..mid] == u[start..first] + u[first..mid] && u[start..first] == s[start..first];
    assert u[optind..optind] == [] && taken + [] == taken;
  }

  /** The elements up to `j` are taken. */
  lemma AdvanceLayout(s: seq<string>, args: seq<string>, start: nat, first: nat, last: nat, optind: nat, taken: seq<string>, operands: seq<string>, j: nat)
    requires Layout(s, args, start, first, last, optind, taken, operands) && optind <= j <= |args|
    ensures Layout(s, args, start, first, last, j, taken + args[optind..j], operands)
  {
    assert s[optind..j] == s[optind..][..j - optind] == args[optind..j];
    assert s[j..] == s[optind..][j - optind..] == args[j..];
    assert s[last..j] == s[last..optind] + s[optind..j];
    Assoc(s[start..first], s[last..optind], s[optind..j]);
  }

  /** The elements up to `j` are skipped as operands. */
  lemma SkipLayout(s: seq<string>, args: seq<string>, start: nat, first: nat, optind: nat, taken: seq<string>, operands: seq<string>, j: nat)
    requires Layout(s, args, start, first, optind, optind, taken, operands) && optind <= j <= |args|
    ensures Layout(s, args, start, first, j, j, taken, operands + args[optind..j])
  {
    assert s[optind..j] == s[optind..][..j - optind] == args[optind..j];
    assert s[j..] == s[optind..][j - optind..] == args[j..];
    assert s[first..j] == s[first..optind] + s[optind..j];
    assert s[j..j] == [] == s[optind..optind];
  }

  /** With no operands the borders can move up. */
  lemma CollapseLayout(s: seq<string>, args: seq<string>, start: nat, first: nat, optind: nat, taken: seq<string>, operands: seq<string>)
    requires Layout(s, args, start, first, first, optind, taken, operands)
    ensures Layout(s, args, start, optind, optind, optind, taken, operands)
  {
    assert s[start..optind] == s[start..first] + s[first..optind];
    assert s[first..first] == [] == s[optind..optind] && taken + [] == taken;
  }

  /** The array when the options have run out: taken elements, then operands. */
  predicate Final(s: seq<string>, args: seq<string>, start: nat, optind: nat, taken: seq<string>, operands: seq<string>) {
    start <= optind <= |s| == |args| && s[..start] == args[..start] && s[start..optind] == taken && s[optind..] == operands
  }

  class Data {
    var optind: nat
    var optarg: Option<string>
    var optopt: int
    var initialized: bool
    var nextchar: string      // "" stands for the null pointer as well as for the empty string
    var ordering: Ordering
    var firstNonopt: nat
    var lastNonopt: nat

    constructor (optind: nat)
      ensures this.optind == optind && !initialized && optopt == '?' as int && nextchar == "" && optarg == None
    {
      this.optind, optarg, optopt, initialized, nextchar := optind, None, '?' as int, false, "";
      ordering, firstNonopt, lastNonopt := Permute, 0, 0;
    }

    /** `exchange`: rotates the skipped operands behind the options that followed them, by swapping blocks in place. */
    method Exchange(argv: array<string>)
      requires firstNonopt <= lastNonopt <= optind <= argv.Length
      modifies argv, this`firstNonopt, this`lastNonopt
      ensures argv[..] == Rotated(old(argv[..]), old(firstNonopt), old(lastNonopt), optind)
      ensures firstNonopt == old(firstNonopt) + (optind - old(lastNonopt)) && lastNonopt == optind
    {
      hide Rotated, Swapped;
      var bottom: nat, middle: nat, top: nat := firstNonopt, lastNonopt, optind;
      while top > middle && middle > bottom
        invariant bottom <= middle <= top <= argv.Length
        invariant firstNonopt == old(firstNonopt) && lastNonopt == old(lastNonopt)
        invariant Rotated(argv[..], bottom, middle, top) == Rotated(old(argv[..]), old(firstNonopt), old(lastNonopt), optind)
        decreases top - bottom
      {
        ghost var s := argv[..];
        if top - middle > middle - bottom {
          var len := middle - bottom;
          SwapThenRotateTop(s, bottom, middle, top);
          SwapBlocks(argv, bottom, top - len, len);
          top := top - len;
        } else {
          var len := top - middle;
          SwapThenRotateBottom(s, bottom, middle, top);
          SwapBlocks(argv, bottom, middle, len);
          bottom := bottom + len;
        }
      }
      RotateNothing(argv[..], bottom, middle, top);
      firstNonopt := firstNonopt + (optind - lastNonopt);
      lastNonopt := optind;
    }
  
    /** Where the calls so far have left the struct and the array, against the reference scanner's progress. */
    ghost predicate Matches(argv: array<string>, cfg: Config, args: seq<string>, start: nat, p: Progress)
      reads this, argv
    {
      && initialized && ordering == cfg.Order() && 1 <= start
      && Sound(args, p) && optind == p.optind && nextchar == p.nextchar && optopt == p.optopt
      && Layout(argv[..], args, start, firstNonopt, lastNonopt, optind, p.taken, p.operands)
      && (!ordering.Permute? ==> firstNonopt == lastNonopt == start && argv[..] == args)
    }

    /** A struct that has not been used, or has been reset. */
    ghost predicate Fresh(argv: array<string>, args: seq<string>, start: nat, p: Progress)
      reads this, argv
    {
      && (!initialized || optind == 0)
      && start == (if optind == 0 then 1 else optind) && start <= argv.Length && argv[..] == args
      && p == Progress(start, "", [], [], optopt)
    }

    method Initialize(argv: array<string>, cfg: Config, ghost args: seq<string>, ghost start: nat, ghost p: Progress)
      requires Fresh(argv, args, start, p)
      modifies this`optind, this`firstNonopt, this`lastNonopt, this`nextchar, this`ordering, this`initialized
      ensures Matches(argv, cfg, args, start, p)
    {
      if optind == 0 {
        optind := 1;
      }
      firstNonopt, lastNonopt, nextchar := optind, optind, "";
      ordering := cfg.Order();
      initialized := true;
      assert args[start..start] == [];
    }

    /** Brings the operands skipped so far behind the options that followed them. */
    method Gather(argv: array<string>, ghost args: seq<string>, ghost start: nat, ghost p: Progress)
      requires Layout(argv[..], args, start, firstNonopt, lastNonopt, optind, p.taken, p.operands)
      modifies argv, this`firstNonopt, this`lastNonopt
      ensures Layout(argv[..], args, start, firstNonopt, optind, optind, p.taken, p.operands)
    {
      hide Layout, Rotated;
      BoundsOf(argv[..], args, start, firstNonopt, lastNonopt, optind, p);
      if firstNonopt != lastNonopt && lastNonopt != optind {
        RotateLayout(argv[..], args, start, firstNonopt, lastNonopt, optind, p.taken, p.operands);
        Exchange(argv);
      } else if lastNonopt != optind {
        CollapseLayout(argv[..], args, start, firstNonopt, optind, p.taken, p.operands);
        firstNonopt := optind;
      }
    }

    /** Skips operands, the reference scanner alongside. */
    method SkipNonOptions(argv: array<string>, ghost args: seq<string>, ghost p: Progress)
      requires optind == p.optind <= argv.Length == |args| && argv[optind..] == args[optind..]
      modifies this`optind
      ensures optind == SkipOperands(args, p).optind
    {
      ghost var from, q := optind, p;
      while optind < argv.Length && NonOption(argv[optind])
        invariant from <= optind <= argv.Length && q.optind == optind
        invariant SkipOperands(args, p) == SkipOperands(args, q)
      {
        assert argv[optind] == argv[from..][optind - from] == args[optind];
        q := q.(optind := optind + 1, operands := q.operands + [args[optind]]);
        optind := optind + 1;
      }
      assert optind < argv.Length ==> argv[optind] == argv[from..][optind - from] == args[optind];
    }

    /** With permutation: puts earlier operands behind the options after them, then skips the next ones. */
    method SkipPhase(argv: array<string>, cfg: Config, ghost args: seq<string>, ghost start: nat, ghost p: Progress)
      requires Matches(argv, cfg, args, start, p) && nextchar == "" && ordering.Permute?
      modifies argv, this`firstNonopt, this`lastNonopt, this`optind
      ensures var q := SkipOperands(args, p); lastNonopt == optind && Matches(argv, cfg, args, start, q)
    {
      hide Layout;
      Gather(argv, args, start, p);
      BoundsOf(argv[..], args, start, firstNonopt, optind, optind, p);
      ghost var from := optind;
      SkipNonOptions(argv, args, p);
      SkipLayout(argv[..], args, start, firstNonopt, from, p.taken, p.operands, optind);
      lastNonopt := optind;
    }

    method GatherEnd(argv: array<string>, ghost args: seq<string>, ghost start: nat, ghost p: Progress)
      requires Layout(argv[..], args, start, firstNonopt, lastNonopt, optind, p.taken, p.operands) && lastNonopt != optind
      modifies argv, this`firstNonopt, this`lastNonopt
      ensures Layout(argv[..], args, start, firstNonopt, optind, optind, p.taken, p.operands)
      ensures old(firstNonopt) == old(lastNonopt) ==> argv[..] == old(argv[..])
    {
      hide Layout, Rotated;
      BoundsOf(argv[..], args, start, firstNonopt, lastNonopt, optind, p);
      if firstNonopt != lastNonopt && lastNonopt != optind {
        RotateLayout(argv[..], args, start, firstNonopt, lastNonopt, optind, p.taken, p.operands);
        Exchange(argv);
      } else if firstNonopt == lastNonopt {
        CollapseLayout(argv[..], args, start, firstNonopt, optind, p.taken, p.operands);
        firstNonopt := optind;
      }
    }

    /** `--`: it is taken, and everything after it is an operand. */
    method EndPhase(argv: array<string>, cfg: Config, ghost args: seq<string>, ghost start: nat, ghost q: Progress)
      requires Matches(argv, cfg, args, start, q) && nextchar == "" && optind < argv.Length && argv[optind] == "--"
      requires ordering.Permute? ==> lastNonopt == optind
      modifies argv, this`firstNonopt, this`lastNonopt, this`optind
      ensures optind == argv.Length == |args| && start <= firstNonopt <= lastNonopt == optind
      ensures Layout(argv[..], args, start, firstNonopt, optind, optind, q.taken + ["--"], q.operands + args[q.optind + 1..])
      ensures !ordering.Permute? ==> argv[..] == args
    {
      hide Layout, Rotated;
      ghost var taken := q.taken + ["--"];
      BoundsOf(argv[..], args, start, firstNonopt, lastNonopt, optind, q);
      SameHead(argv[..], args, optind);
      assert args[optind..optind + 1] == ["--"];
      AdvanceLayout(argv[..], args, start, firstNonopt, lastNonopt, optind, q.taken, q.operands, optind + 1);
      optind := optind + 1;
      GatherEnd(argv, args, start, q.(taken := taken));
      SkipLayout(argv[..], args, start, firstNonopt, optind, taken, q.operands, argv.Length);
      assert args[optind..argv.Length] == args[optind..];
      ghost var p := Progress(argv.Length, "", taken, q.operands + args[q.optind + 1..], 0);
      BoundsOf(argv[..], args, start, firstNonopt, argv.Length, argv.Length, p);
      lastNonopt := argv.Length;
      optind := argv.Length;
    }

    /** The end of the options: `optind` goes back to the first operand. */
    method Finish(argv: array<string>, ghost args: seq<string>, ghost start: nat, ghost p: Progress) returns (out: Outcome)
      requires optind == argv.Length == |args| && p.optopt == optopt
      requires Layout(argv[..], args, start, firstNonopt, lastNonopt, optind, p.taken, p.operands)
      requires lastNonopt == optind || firstNonopt == lastNonopt == start
      modifies this`optind
      ensures out == End(optopt) && Final(argv[..], args, start, optind, p.taken, p.operands)
    {
      ghost var s := argv[..];
      assert s[optind..optind] == [] && s[start..start] == [];
      if firstNonopt != lastNonopt {
        optind := firstNonopt;
      }
      assert s[start..firstNonopt] + [] == s[start..firstNonopt] && [] + s[start..argv.Length] == s[start..argv.Length];
      return Outcome(-1, None, optopt, None, None);
    }

    method FindLong(los: seq<LongOption>, name: string, longOnly: bool) returns (m: Match)
      ensures m == MatchLong(los, name, longOnly) && StandsFor(los, name, longOnly, m)
    {
      MatchLongExactly(los, name, longOnly, MatchLong(los, name, longOnly));
      hide StandsFor;
      var found: Option<nat> := None;
      var ambiguous := false;
      var k := 0;
      while k < |los|
        invariant k <= |los| && (found.Some? ==> found.value < k)
        invariant MatchLong(los, name, longOnly) == MatchFrom(los, name, longOnly, k, found, ambiguous)
      {
        if name <= los[k].name {
          if |name| == |los[k].name| {
            return Found(k);
          } else if found.None? {
            found := Some(k);
          } else if longOnly || !SameEffect(los[found.value], los[k]) {
            ambiguous := true;
          }
        }
        k := k + 1;
      }
      return if ambiguous then Ambiguous else if found.Some? then Found(found.value) else NoMatch;
    }

    /** The long option part; `done` is false when the letter is to be read as a short option. */
    method ScanLong(argv: array<string>, cfg: Config) returns (done: bool, out: Outcome)
      requires optind < argv.Length && |argv[optind]| >= 2 && nextchar != "" && TriesLong(cfg, argv[optind]) && optarg == None
      modifies this`optind, this`nextchar, this`optarg, this`optopt
      ensures !done ==> optind == old(optind) && nextchar == old(nextchar) && optarg == None && optopt == old(optopt)
      ensures var i, nc := old(optind), old(nextchar); var s := ScanOption(cfg, argv[..], i, nc, old(optopt));
              if done then s == Scan(out, optind, nextchar) && optarg == out.optarg && optopt == out.optopt
              else s == TakeShort(cfg, argv[..], i, nc, old(optopt))
    {
      var los := cfg.longopts.value;
      var nameend := Find(nextchar, "=");
      var m := FindLong(los, nextchar[..nameend], cfg.longOnly);
      match m
      case Ambiguous =>
        optind, nextchar, optopt := optind + 1, "", 0;
        return true, Outcome('?' as int, None, 0, None, None);
      case NoMatch =>
        if !cfg.longOnly || argv[optind][1] == '-' || cfg.Place(nextchar[0]).None? {
          optind, nextchar, optopt := optind + 1, "", 0;
          return true, Outcome('?' as int, None, 0, None, None);
        }
        return false, Outcome(0, None, optopt, None, None);
      case Found(k) =>
        var p := los[k];
        optind := optind + 1;
        if nameend < |nextchar| {
          if p.hasArg != 0 {
            optarg := Some(nextchar[nameend + 1..]);
          } else {
            nextchar, optopt := "", p.val;
            return true, Outcome('?' as int, None, p.val, None, None);
          }
        } else if p.hasArg == 1 {
          if optind < argv.Length {
            optarg := Some(argv[optind]);
            optind := optind + 1;
          } else {
            nextchar, optopt := "", p.val;
            return true, Outcome(cfg.Missing(), None, p.val, None, None);
          }
        }
        nextchar := "";
        if p.flag.Some? {
          return true, Outcome(0, optarg, optopt, Some(k), Some((p.flag.value, p.val)));
        }
        return true, Outcome(p.val, optarg, optopt, Some(k), None);
    }

    /** The text that came with a `-W`, which is in `optarg`, as a long option. */
    method ScanNamed(argv: array<string>, cfg: Config) returns (out: Outcome)
      requires optind <= argv.Length && cfg.longopts.Some? && optarg.Some?
      modifies this`optind, this`nextchar, this`optarg
      ensures TakeNamed(cfg, argv[..], old(optind), old(optarg).value, optopt) == Scan(out, optind, nextchar)
      ensures optarg == out.optarg && optopt == out.optopt
    {
      var los := cfg.longopts.value;
      nextchar := optarg.value;
      var nameend := Find(nextchar, "=");
      var m := FindLong(los, nextchar[..nameend], cfg.longOnly);
      match m
      case Ambiguous =>
        nextchar, optind := "", optind + 1;
        return Outcome('?' as int, optarg, optopt, None, None);
      case NoMatch =>
        nextchar := "";
        return Outcome('W' as int, optarg, optopt, None, None);
      case Found(k) =>
        var p := los[k];
        if nameend < |nextchar| {
          if p.hasArg != 0 {
            optarg := Some(nextchar[nameend + 1..]);
          } else {
            nextchar := "";
            return Outcome('?' as int, optarg, optopt, None, None);
          }
        } else if p.hasArg == 1 {
          if optind < argv.Length {
            optarg := Some(argv[optind]);
            optind := optind + 1;
          } else {
            nextchar := "";
            return Outcome(cfg.Missing(), optarg, optopt, None, None);
          }
        } else {
          optarg := None;
        }
        nextchar := "";
        if p.flag.Some? {
          return Outcome(0, optarg, optopt, Some(k), Some((p.flag.value, p.val)));
        }
        return Outcome(p.val, optarg, optopt, Some(k), None);
    }

    /** A `-W` that has been read; what follows it is in `nextchar`, or it is the next element. */
    method ScanW(argv: array<string>, cfg: Config, ghost i: nat) returns (out: Outcome)
      requires i < argv.Length && optarg == None && optind == if nextchar == "" then i + 1 else i
      modifies this`optind, this`nextchar, this`optarg, this`optopt
      ensures TakeW(cfg, argv[..], i, old(nextchar), old(optopt)) == Scan(out, optind, nextchar)
      ensures optarg == out.optarg && optopt == out.optopt
    {
      hide TakeNamed;
      if cfg.longopts.None? {
        nextchar := "";
        return Outcome('W' as int, None, optopt, None, None);
      }
      if nextchar != "" {
        optarg := Some(nextchar);
        optind := optind + 1;
      } else if optind == argv.Length {
        optopt := 'W' as int;
        return Outcome(cfg.Missing(), None, optopt, None, None);
      } else {
        optarg := Some(argv[optind]);
        optind := optind + 1;
      }
      out := ScanNamed(argv, cfg);
    }

    method ScanShort(argv: array<string>, cfg: Config) returns (out: Outcome)
      requires optind < argv.Length && nextchar != "" && optarg == None
      modifies this`optind, this`nextchar, this`optarg, this`optopt
      ensures TakeShort(cfg, argv[..], old(optind), old(nextchar), old(optopt)) == Scan(out, optind, nextchar)
      ensures optarg == out.optarg && optopt == out.optopt
    {
      hide TakeW;
      ghost var i := optind;
      var c := nextchar[0];
      nextchar := nextchar[1..];
      var temp := cfg.Place(c);
      if nextchar == "" {
        optind := optind + 1;
      }
      if temp.None? || c == ':' || c == ';' {
        optopt := c as int;
        return Outcome('?' as int, None, optopt, None, None);
      }
      if c == 'W' && cfg.LetterAt(temp.value + 1) == ';' {
        out := ScanW(argv, cfg, i);
        return;
      }
      var ret := c as int;
      if cfg.LetterAt(temp.value + 1) == ':' {
        if cfg.LetterAt(temp.value + 2) == ':' {
          if nextchar != "" {
            optarg := Some(nextchar);
            optind := optind + 1;
          } else {
            optarg := None;
          }
          nextchar := "";
        } else {
          if nextchar != "" {
            optarg := Some(nextchar);
            optind := optind + 1;
          } else if optind == argv.Length {
            optopt := c as int;
            ret := cfg.Missing();
          } else {
            optarg := Some(argv[optind]);
            optind := optind + 1;
          }
          nextchar := "";
        }
      }
      return Outcome(ret, optarg, optopt, None, None);
    }

    /** Reads one option of the current element. */
    method ScanPhase(argv: array<string>, cfg: Config) returns (out: Outcome)
      requires optind < argv.Length && |argv[optind]| >= 2 && nextchar != "" && optarg == None
      modifies this`optind, this`nextchar, this`optarg, this`optopt
      ensures ScanOption(cfg, argv[..], old(optind), old(nextchar), old(optopt)) == Scan(out, optind, nextchar)
      ensures optarg == out.optarg && optopt == out.optopt
    {
      hide TakeShort, TakeLong;
      if TriesLong(cfg, argv[optind]) {
        var done;
        done, out := ScanLong(argv, cfg);
        if done {
          return out;
        }
      }
      out := ScanShort(argv, cfg);
    }

    /** Moves on to the next element; `done` when the call ends there. */
    method NextElement(argv: array<string>, cfg: Config, ghost args: seq<string>, ghost start: nat, ghost p: Progress)
      returns (done: bool, out: Outcome)
      requires Matches(argv, cfg, args, start, p) && nextchar == "" && optarg == None
      modifies argv, this`optind, this`firstNonopt, this`lastNonopt, this`optarg
      ensures var q := Skipped(cfg, args, p); var s := AtElement(cfg, args, q);
              && done == s.Some? && optopt == p.optopt
              && (!done ==> optarg == None && Matches(argv, cfg, args, start, q))
              && (done ==> out == s.value.out && optarg == out.optarg && optopt == out.optopt)
              && (done && !s.value.ended ==> Matches(argv, cfg, args, start, s.value.next))
              && (done && s.value.ended ==> Final(argv[..], args, start, optind, s.value.next.taken, s.value.next.operands))
      ensures !cfg.Order().Permute? ==> argv[..] == old(argv[..])
    {
      hide Layout, Final;
      BoundsOf(argv[..], args, start, firstNonopt, lastNonopt, optind, p);
      lastNonopt := Min(lastNonopt, optind);
      firstNonopt := Min(firstNonopt, optind);
      ghost var q := Skipped(cfg, args, p);
      if ordering.Permute? {
        SkipPhase(argv, cfg, args, start, p);
      }
      done, out := AtNext(argv, cfg, args, start, q);
    }

    method AtNext(argv: array<string>, cfg: Config, ghost args: seq<string>, ghost start: nat, ghost q: Progress)
      returns (done: bool, out: Outcome)
      requires Matches(argv, cfg, args, start, q) && nextchar == "" && optarg == None && (ordering.Permute? ==> lastNonopt == optind)
      modifies argv, this`optind, this`firstNonopt, this`lastNonopt, this`optarg
      ensures var s := AtElement(cfg, args, q);
              && done == s.Some? && optopt == q.optopt
              && (!done ==> optarg == None && Matches(argv, cfg, args, start, q))
              && (done ==> out == s.value.out && optarg == out.optarg && optopt == out.optopt)
              && (done && !s.value.ended ==> Matches(argv, cfg, args, start, s.value.next))
              && (done && s.value.ended ==> Final(argv[..], args, start, optind, s.value.next.taken, s.value.next.operands))
      ensures !cfg.Order().Permute? ==> argv[..] == old(argv[..])
    {
      hide Layout, Final;
      BoundsOf(argv[..], args, start, firstNonopt, lastNonopt, optind, q);
      if optind < argv.Length {
        SameHead(argv[..], args, optind);
      }
      if optind != argv.Length && argv[optind] == "--" {
        EndPhase(argv, cfg, args, start, q);
        out := Finish(argv, args, start, AtElement(cfg, args, q).value.next);
        return true, out;
      }
      if optind == argv.Length {
        out := Finish(argv, args, start, q);
        return true, out;
      }
      if NonOption(argv[optind]) {
        if ordering.RequireOrder? {
          StopHere(argv[..], args, start, optind, q);
          return true, Outcome(-1, None, optopt, None, None);
        }
        ReturnOperand(argv[..], args, start, firstNonopt, lastNonopt, optind, q);
        optarg := Some(argv[optind]);
        optind := optind + 1;
        return true, Outcome(1, optarg, optopt, None, None);
      }
      return false, Outcome(0, None, optopt, None, None);
    }

    /**
     * One call, against one call of the reference scanner on the arguments as they were. When that one oversteps the
     * arguments, `optind` is past the end of the array, and no further call is sound.
     */
    method Call(argv: array<string>, cfg: Config, ghost args: seq<string>, ghost start: nat, ghost p: Progress) returns (out: Outcome)
      requires Sound(args, p)
      requires argv.Length >= 1 ==> Fresh(argv, args, start, p) || Matches(argv, cfg, args, start, p)
      modifies argv, this
      ensures argv.Length < 1 ==> out.ret == -1 && optind == old(optind) && optarg == old(optarg)
      ensures argv.Length >= 1 ==>
              var step := RefCall(cfg, args, p);
              && out == step.out && optarg == out.optarg && optopt == out.optopt
              && (!step.ended && Sound(args, step.next) ==> Matches(argv, cfg, args, start, step.next))
              && (!step.ended && !Sound(args, step.next) ==> optind == step.next.optind == argv.Length + 1)
              && (step.ended ==> Final(argv[..], args, start, optind, step.next.taken, step.next.operands))
      ensures !cfg.Order().Permute? ==> argv[..] == old(argv[..])
    {
      hide Layout, ScanOption, Final, TakeOption, AtElement;
      if argv.Length < 1 {
        return Outcome(-1, None, optopt, None, None);
      }
      if Matches(argv, cfg, args, start, p) {
        BoundsOf(argv[..], args, start, firstNonopt, lastNonopt, optind, p);
      }
      optarg := None;
      if optind == 0 || !initialized {
        Initialize(argv, cfg, args, start, p);
      }
      BoundsOf(argv[..], args, start, firstNonopt, lastNonopt, optind, p);
      ghost var q := p;
      if nextchar == "" {
        var done;
        done, out := NextElement(argv, cfg, args, start, p);
        if done {
          return;
        }
        q := Skipped(cfg, args, p);
        BoundsOf(argv[..], args, start, firstNonopt, lastNonopt, optind, q);
        SameHead(argv[..], args, optind);
        nextchar := Opening(cfg, argv[optind]);
      }
      out := ScanCurrent(argv, cfg, args, start, q);
    }

    /** Reads an option of the element at `optind`, the reference scanner alongside. */
    method ScanCurrent(argv: array<string>, cfg: Config, ghost args: seq<string>, ghost start: nat, ghost q: Progress) returns (out: Outcome)
      requires initialized && ordering == cfg.Order() && 1 <= start && optind == q.optind && optopt == q.optopt && optarg == None
      requires Layout(argv[..], args, start, firstNonopt, lastNonopt, optind, q.taken, q.operands)
      requires optind < |args| && !NonOption(args[optind]) && nextchar != "" && Sound(args, q)
      requires if q.nextchar != "" then nextchar == q.nextchar else |nextchar| < |args[optind]|
      requires !ordering.Permute? ==> firstNonopt == lastNonopt == start && argv[..] == args
      modifies this`optind, this`nextchar, this`optarg, this`optopt
      ensures q.optind <= ScanOption(cfg, args, q.optind, old(nextchar), q.optopt).optind
      ensures var step := TakeOption(cfg, args, q, old(nextchar));
              && out == step.out && optarg == out.optarg && optopt == out.optopt
              && !step.ended
              && if Sound(args, step.next) then Matches(argv, cfg, args, start, step.next)
                 else optind == step.next.optind == argv.Length + 1
    {
      hide Layout, ScanOption, Oversteps, Rereads;
      BoundsOf(argv[..], args, start, firstNonopt, lastNonopt, optind, q);
      ghost var nc, from := nextchar, optind;
      SameHead(argv[..], args, optind);
      SameScan(cfg, argv[..], args, optind, nc, optopt);
      TakeUnread(cfg, args, q, nc);
      ScanBounds(cfg, args, optind, nc, optopt);
      out := ScanPhase(argv, cfg);
      if optind <= |args| {
        AdvanceLayout(argv[..], args, start, firstNonopt, lastNonopt, from, q.taken, q.operands, optind);
      }
    }
  }

  lemma BoundsOf(s: seq<string>, args: seq<string>, start: nat, first: nat, last: nat, optind: nat, p: Progress)
    requires Layout(s, args, start, first, last, optind, p.taken, p.operands)
    ensures start <= first <= last <= optind <= |s| == |args| && s[optind..] == args[optind..]
  {
  }

  lemma SameHead(s: seq<string>, args: seq<string>, i: nat)
    requires |s| == |args| && i < |s| && s[i..] == args[i..]
    ensures s[i] == args[i]
  {
    assert s[i..][0] == args[i..][0];
  }

  /** An option's reading depends only on the elements from its own on. */
  lemma SameScan(cfg: Config, s: seq<string>, args: seq<string>, i: nat, nc: string, optopt: int)
    requires |s| == |args| && i < |s| && s[i..] == args[i..] && |s[i]| >= 2 && nc != ""
    ensures s[i] == args[i] && ScanOption(cfg, s, i, nc, optopt) == ScanOption(cfg, args, i, nc, optopt)
  {
    assert s[i] == s[i..][0] == args[i];
    assert i + 1 < |s| ==> s[i + 1] == s[i..][1] == args[i + 1];
    assert i + 2 < |s| ==> s[i + 2] == s[i..][2] == args[i + 2];
  }

  /** Stopping at the first operand: it and all that follows are operands. */
  lemma StopHere(s: seq<string>, args: seq<string>, start: nat, optind: nat, q: Progress)
    requires Layout(s, args, start, start, start, optind, q.taken, q.operands)
    ensures Final(s, args, start, optind, q.taken, q.operands + args[optind..])
  {
    assert s[start..start] == [] && [] + s[start..optind] == s[start..optind] && [] + args[optind..] == args[optind..];
  }

  /** An operand that is returned in its place. */
  lemma ReturnOperand(s: seq<string>, args: seq<string>, start: nat, first: nat, last: nat, optind: nat, q: Progress)
    requires Layout(s, args, start, first, last, optind, q.taken, q.operands) && optind < |args|
    ensures Layout(s, args, start, first, last, optind + 1, q.taken + [args[optind]], q.operands)
  {
    AdvanceLayout(s, args, start, first, last, optind, q.taken, q.operands, optind + 1);
    assert args[optind..optind + 1] == [args[optind]];
  }

  /**
   * Up to `n` calls by a client that stops at -1, none of them from beyond the array. The outcomes are those of the one-pass
   * scanner on the untouched arguments; when the options have run out, the array holds, from `start` on, the elements that
   * scanner took, and from `optind` on its operands. `EndsExactly` and `InsideExactly` say when enough calls reach that end.
   */
  method RunAll(argv: array<string>, cfg: Config, d: Data, n: nat) returns (outs: seq<Outcome>)
    requires argv.Length >= 1 && d.optind <= argv.Length && (!d.initialized || d.optind == 0)
    modifies argv, d
    ensures var args := old(argv[..]);
            var start := if old(d.optind) == 0 then 1 else old(d.optind);
            var run := RefRun(cfg, args, Progress(start, "", [], [], old(d.optopt)), n);
            && outs == run.outs
            && (run.ended ==> Final(argv[..], args, start, d.optind, run.last.taken, run.last.operands))
            && (!Sound(args, run.last) ==> d.optind == argv.Length + 1)
    ensures !cfg.Order().Permute? ==> argv[..] == old(argv[..])
  {
    hide RefCall, Final;
    ghost var args := argv[..];
    ghost var start := if d.optind == 0 then 1 else d.optind;
    ghost var p := Progress(start, "", [], [], d.optopt);
    ghost var whole := RefRun(cfg, args, p, n);
    outs := [];
    assert [] + whole.outs == whole.outs;
    for i := 0 to n
      invariant Sound(args, p)
      invariant d.Fresh(argv, args, start, p) || d.Matches(argv, cfg, args, start, p)
      invariant var rest := RefRun(cfg, args, p, n - i); whole == rest.(outs := outs + rest.outs)
      invariant !cfg.Order().Permute? ==> argv[..] == args
    {
      ghost var step := RefCall(cfg, args, p);
      CallProgress(cfg, args, p);
      RunStep(cfg, args, p, outs, n - i);
      var out := d.Call(argv, cfg, args, start, p);
      outs := outs + [out];
      if out.ret == -1 || d.optind > argv.Length {
        return;
      }
      p := step.next;
    }
  }

  lemma RunStep(cfg: Config, args: seq<string>, p: Progress, outs: seq<Outcome>, n: nat)
    requires Sound(args, p) && n > 0
    ensures var step := RefCall(cfg, args, p); var run := RefRun(cfg, args, p, n);
            && (step.ended ==> step.out.ret == -1)
            && if step.out.ret == -1 || !Sound(args, step.next) then
                 outs + run.outs == outs + [step.out] && run.last == step.next && run.ended == step.ended
               else var rest := RefRun(cfg, args, step.next, n - 1);
                    run.(outs := outs + run.outs) == rest.(outs := (outs + [step.out]) + rest.outs)
  {
    hide TakeOption;
    NeverEnds(cfg, args, p);
    var step := RefCall(cfg, args, p);
    if step.out.ret != -1 && Sound(args, step.next) {
      Assoc(outs, [step.out], RefRun(cfg, args, step.next, n - 1).outs);
    }
  }

  lemma NeverEnds(cfg: Config, args: seq<string>, p: Progress)
    requires Sound(args, p)
    ensures RefCall(cfg, args, p).ended ==> RefCall(cfg, args, p).out.ret == -1
  {
    hide ScanOption;
  }
}
