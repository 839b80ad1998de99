/** Route patterns with named path parameters: compiling a pattern and matching a path against it. */
module PathParams {
  import opened Bytes
  import opened Text

  const NUL := 0 as char

  // ----- Patterns -----

  /** A text up to its first parameter, the parameter's name, and what follows the separator after it, if there is one. */
  datatype Cut = Plain | Param(before: string, name: string, more: bool, rest: string)

  function FirstParam(p: string): (c: Cut)
    ensures c.Param? ==> |c.rest| < |p| && (c.more || c.rest == "")
  {
    var i := Find(p, ":");
    if i == |p| then Plain
    else
      var t := p[i + 1..];
      var j := Find(t, "/");
      Param(p[..i], t[..j], j < |t|, if j < |t| then t[j + 1..] else "")
  }

  function Fragments(p: string): seq<string>
    decreases |p|
  {
    match FirstParam(p)
    case Plain => NonEmpty(p)
    case Param(before, _, _, rest) => [before] + Fragments(rest)
  }

  function Names(p: string): seq<string>
    decreases |p|
  {
    match FirstParam(p)
    case Plain => []
    case Param(_, name, _, rest) => [name] + Names(rest)
  }

  predicate Distinct(s: seq<string>) { forall i, j :: 0 <= i < j < |s| ==> s[i] != s[j] }

  lemma {:induction false} OneFragmentEach(p: string)
    ensures |Names(p)| <= |Fragments(p)| <= |Names(p)| + 1
    decreases |p|
  {
    hide FirstParam;
    if FirstParam(p).Param? {
      OneFragmentEach(FirstParam(p).rest);
    }
  }

  /** The pattern with its parameters replaced by values. */
  function Substitute(p: string, vals: seq<string>): string
    requires |vals| == |Names(p)|
    decreases |p|
  {
    match FirstParam(p)
    case Plain => p
    case Param(before, _, more, rest) => before + vals[0] + if more then "/" + Substitute(rest, vals[1..]) else ""
  }

  /** A parameter is the last thing in the pattern, but for a separator. */
  predicate EndsInParam(p: string) { |Fragments(p)| == |Names(p)| > 0 }

  /** The same from the fragments, which lack a separator after the last parameter. */
  function Render(frags: seq<string>, vals: seq<string>): string
    requires |vals| <= |frags| <= |vals| + 1
    decreases |frags|
  {
    if vals == [] then if frags == [] then "" else frags[0]
    else frags[0] + vals[0] + if |frags| == 1 then "" else "/" + Render(frags[1..], vals[1..])
  }

  /** Substituting in the pattern and in its fragments differs by at most the separator after a last parameter. */
  lemma {:induction false} SubstituteIs(p: string, vals: seq<string>)
    requires |vals| == |Names(p)|
    ensures |vals| <= |Fragments(p)| <= |vals| + 1
    ensures var r := Render(Fragments(p), vals);
            Substitute(p, vals) == r || (EndsInParam(p) && Substitute(p, vals) == r + "/")
    decreases |p|
  {
    hide FirstParam;
    OneFragmentEach(p);
    var c := FirstParam(p);
    if c.Param? {
      SubstituteIs(c.rest, vals[1..]);
      if c.more && Fragments(c.rest) != [] {
        var head, r := c.before + vals[0], Render(Fragments(c.rest), vals[1..]);
        assert Render(Fragments(p), vals) == head + ("/" + r);
        assert head + ("/" + (r + "/")) == (head + ("/" + r)) + "/";
      }
    }
  }

  // ----- Matching -----

  /** `strncmp` finds no difference in the first `n` bytes. */
  predicate StrnEqual(a: string, b: string, n: nat)
    requires n <= |a| && n <= |b|
  {
    n == 0 || (a[0] == b[0] && (a[0] == NUL || StrnEqual(a[1..], b[1..], n - 1)))
  }

  lemma {:induction false} StrnExact(a: string, b: string)
    requires |b| <= |a| && NUL !in b
    ensures StrnEqual(a, b, |b|) <==> a[..|b|] == b
  {
    if b != "" {
      StrnExact(a[1..], b[1..]);
      assert a[..|b|] == [a[0]] + a[1..][..|b| - 1] && b == [b[0]] + b[1..];
    }
  }

  /** The values that a path gives to the parameters, matched from a position; `n` parameters are left. */
  function MatchFrom(frags: seq<string>, n: nat, path: string, start: nat): Option<seq<string>>
    decreases |frags|
  {
    if frags == [] then if start >= |path| then Some([]) else None
    else
      var at := start + |frags[0]|;
      if at > |path| || !StrnEqual(path[start..], frags[0], |frags[0]|) then None
      else if n == 0 then MatchFrom(frags[1..], 0, path, at)
      else
        var sep := at + Find(path[at..], "/");
        match MatchFrom(frags[1..], n - 1, path, sep + 1)
        case None => None
        case Some(vals) => Some([path[at..sep]] + vals)
  }

  predicate Gives(o: Option<seq<string>>, vals: seq<string>) { o.Some? && o.value == vals }

  predicate NoSlashes(vals: seq<string>) { forall i :: 0 <= i < |vals| ==> '/' !in vals[i] }

  /** The path is the rendering of some values, up to one separator after a last parameter. */
  predicate Renders(frags: seq<string>, vals: seq<string>, path: string)
    requires |vals| <= |frags| <= |vals| + 1
  {
    path == Render(frags, vals) || (|frags| == |vals| > 0 && path == Render(frags, vals) + "/")
  }

  /** A value without separators ends where the first separator is. */
  lemma ValueEnds(v: string, tail: string)
    requires '/' !in v && (tail == "" || tail[0] == '/')
    ensures Find(v + tail, "/") == |v|
  {
    FindChar(v + tail, '/', |v|);
  }

  lemma FirstValue(t: string)
    ensures var j := Find(t, "/"); '/' !in t[..j] && (j < |t| ==> t == t[..j] + "/" + t[j + 1..])
  {
    FindCharFirst(t, '/');
    var j := Find(t, "/");
    if j < |t| {
      OccurrenceStarts(t, "/", j);
      assert t == t[..j] + [t[j]] + t[j + 1..];
    } else {
      assert t[..j] == t;
    }
  }

  /** The first value is what comes before the first separator, and the rest renders the rest. */
  predicate Follows(frags: seq<string>, vals: seq<string>, t: string)
    requires vals != [] && |vals| <= |frags| <= |vals| + 1
  {
    var j := Find(t, "/");
    && vals[0] == t[..j]
    && if |frags| == 1 then j == |t| || j + 1 == |t| else j < |t| && Renders(frags[1..], vals[1..], t[j + 1..])
  }

  lemma RenderedFollows(frags: seq<string>, vals: seq<string>, t: string)
    requires vals != [] && |vals| <= |frags| <= |vals| + 1
    requires Renders(frags, vals, frags[0] + t) && '/' !in vals[0]
    ensures Follows(frags, vals, t)
  {
    hide Find;
    var f, v, r := frags[0], vals[0], Render(frags, vals);
    if |frags| == 1 {
      assert r == f + v;
      var tail := if f + t == r then "" else "/";
      assert f + t == f + (v + tail);
      SameTail(f, t, v + tail);
      ValueEnds(v, tail);
    } else {
      var more := Render(frags[1..], vals[1..]);
      assert r == f + v + ("/" + more);
      var tail := if f + t == r then "/" + more else "/" + more + "/";
      assert f + t == f + (v + tail);
      SameTail(f, t, v + tail);
      ValueEnds(v, tail);
      DropHead(v, tail);
      assert tail[1..] == if f + t == r then more else more + "/";
    }
  }

  lemma FollowsRendered(frags: seq<string>, vals: seq<string>, t: string)
    requires vals != [] && |vals| <= |frags| <= |vals| + 1 && Follows(frags, vals, t)
    ensures Renders(frags, vals, frags[0] + t) && '/' !in vals[0]
  {
    hide Find;
    var j, f, v, r := Find(t, "/"), frags[0], vals[0], Render(frags, vals);
    FirstValue(t);
    if |frags| == 1 {
      assert r == f + v;
      assert t == if j == |t| then v else v + "/";
      assert f + (v + "/") == (f + v) + "/";
    } else {
      var more := Render(frags[1..], vals[1..]);
      assert r == f + v + ("/" + more);
      assert f + (v + "/" + more) == r && f + (v + "/" + (more + "/")) == r + "/";
    }
  }

  lemma FollowsExactly(frags: seq<string>, vals: seq<string>, t: string)
    requires vals != [] && |vals| <= |frags| <= |vals| + 1
    ensures Renders(frags, vals, frags[0] + t) && '/' !in vals[0] <==> Follows(frags, vals, t)
  {
    hide Renders, Follows;
    if Renders(frags, vals, frags[0] + t) && '/' !in vals[0] {
      RenderedFollows(frags, vals, t);
    }
    if Follows(frags, vals, t) {
      FollowsRendered(frags, vals, t);
    }
  }

  lemma RenderPlain(f: string, vals: seq<string>, t: string)
    ensures |vals| == 0 ==> (Renders([f], vals, f + t) <==> t == "")
  {
    assert t != "" ==> |f + t| > |f|;
    assert f + "" == f;
  }

  lemma DropHead(v: string, tail: string)
    requires tail != ""
    ensures (v + tail)[|v| + 1..] == tail[1..]
  {
  }

  lemma SameTail(f: string, t: string, u: string)
    requires f + t == f + u
    ensures t == u
  {
    assert (f + t)[|f|..] == t && (f + u)[|f|..] == u;
  }

  /** The path has ended, and the last value with it. */
  lemma PastEnd(frags: seq<string>, n: nat, path: string)
    ensures MatchFrom(frags, n, path, |path| + 1) == if frags == [] then Some([]) else None
  {
  }

  lemma RendersFirst(frags: seq<string>, vals: seq<string>, s: string)
    requires |vals| <= |frags| <= |vals| + 1 && frags != [] && Renders(frags, vals, s)
    ensures |frags[0]| <= |s| && s[..|frags[0]|] == frags[0]
  {
  }

  /** From any position: the values are those whose rendering the rest of the path is, up to a last separator. */
  lemma {:induction false} MatchExactly(frags: seq<string>, n: nat, path: string, start: nat, vals: seq<string>)
    requires n <= |frags| <= n + 1 && start <= |path| && forall i :: 0 <= i < |frags| ==> NUL !in frags[i]
    ensures Gives(MatchFrom(frags, n, path, start), vals)
       <==> |vals| == n && NoSlashes(vals) && Renders(frags, vals, path[start..])
    decreases |frags|
  {
    if frags == [] {
      assert start == |path| <==> path[start..] == "";
    } else {
      hide Renders, Render, Find, StrnEqual;
      var f, s := frags[0], path[start..];
      if |f| <= |s| {
        StrnExact(s, f);
      }
      if |vals| == n && Renders(frags, vals, s) {
        RendersFirst(frags, vals, s);
      }
      if |f| <= |s| && s[..|f|] == f {
        MatchRest(frags, n, path, start, vals);
      }
    }
  }

  lemma MatchUnfold(frags: seq<string>, n: nat, path: string, start: nat)
    requires frags != [] && start + |frags[0]| <= |path| && StrnEqual(path[start..], frags[0], |frags[0]|)
    ensures n == 0 ==> MatchFrom(frags, n, path, start) == MatchFrom(frags[1..], 0, path, start + |frags[0]|)
    ensures n > 0 ==>
              var t := path[start + |frags[0]|..];
              var j := Find(t, "/");
              var more := MatchFrom(frags[1..], n - 1, path, start + |frags[0]| + j + 1);
              MatchFrom(frags, n, path, start) == if more.None? then None else Some([t[..j]] + more.value)
  {
    hide Find, StrnEqual;
    var at := start + |frags[0]|;
    var j := Find(path[at..], "/");
    assert path[at..at + j] == path[at..][..j];
  }

  lemma MatchEnd(path: string, start: nat)
    requires start <= |path|
    ensures MatchFrom([], 0, path, start) == if path[start..] == "" then Some([]) else None
  {
  }

  lemma MatchRest(frags: seq<string>, n: nat, path: string, start: nat, vals: seq<string>)
    requires n <= |frags| <= n + 1 && frags != [] && forall i :: 0 <= i < |frags| ==> NUL !in frags[i]
    requires start + |frags[0]| <= |path| && path[start..][..|frags[0]|] == frags[0]
    requires StrnEqual(path[start..], frags[0], |frags[0]|)
    ensures Gives(MatchFrom(frags, n, path, start), vals)
       <==> |vals| == n && NoSlashes(vals) && Renders(frags, vals, path[start..])
    decreases |frags|, 0
  {
    hide Find, StrnEqual, Render, Renders, MatchFrom;
    var at := start + |frags[0]|;
    var t := path[at..];
    assert path[start..] == frags[0] + t;
    MatchUnfold(frags, n, path, start);
    if n == 0 {
      assert frags == [frags[0]] && frags[1..] == [];
      MatchEnd(path, at);
      RenderPlain(frags[0], vals, t);
    } else {
      var j := Find(t, "/");
      var rest := if vals == [] then [] else vals[1..];
      if |vals| == n {
        FollowsExactly(frags, vals, t);
        assert vals == [vals[0]] + rest;
        assert NoSlashes(vals) <==> '/' !in vals[0] && NoSlashes(rest);
      }
      var o, more := MatchFrom(frags, n, path, start), MatchFrom(frags[1..], n - 1, path, at + j + 1);
      if vals != [] {
        Uncons(vals, t[..j], if more.None? then [] else more.value);
      }
      if j == |t| {
        PastEnd(frags[1..], n - 1, path);
      } else {
        Tails(path, at, j + 1);
        MatchExactly(frags[1..], n - 1, path, at + j + 1, rest);
        RendersNothing(t[j + 1..]);
      }
      assert |frags| == 1 <==> frags[1..] == [];
      assert |vals| == n ==> (n == 1 <==> rest == []);
    }
  }

  lemma RendersNothing(t: string)
    ensures Renders([], [], t) <==> t == ""
  {
  }

  lemma Uncons(s: seq<string>, x: string, xs: seq<string>)
    requires s != []
    ensures s == [x] + xs <==> s[0] == x && s[1..] == xs
  {
    assert s == [s[0]] + s[1..];
  }

  // ----- Patterns and paths -----

  lemma FirstParamParts(p: string, c: char)
    requires c !in p
    ensures var f := FirstParam(p); f.Param? ==> c !in f.before && c !in f.rest
  {
  }

  lemma {:induction false} FragmentsKeep(p: string, c: char)
    requires c !in p
    ensures forall i :: 0 <= i < |Fragments(p)| ==> c !in Fragments(p)[i]
    decreases |p|
  {
    hide FirstParam;
    FirstParamParts(p, c);
    if FirstParam(p).Param? {
      FragmentsKeep(FirstParam(p).rest, c);
    }
  }

  /** What the compiled pattern makes of a path. */
  function Captures(p: string, path: string): Option<seq<string>> { MatchFrom(Fragments(p), |Names(p)|, path, 0) }

  /** Equal, but for one separator at the end of either. */
  predicate UpToSlash(a: string, b: string) { a == b || a == b + "/" || a + "/" == b }

  /** Substituting values without separators gives a path that is matched with exactly those values. */
  lemma SubstitutedMatches(p: string, vals: seq<string>)
    requires NUL !in p && |vals| == |Names(p)| && NoSlashes(vals)
    ensures Gives(Captures(p, Substitute(p, vals)), vals)
  {
    hide Fragments, Names, Render, MatchFrom, Substitute;
    SubstituteIs(p, vals);
    FragmentsKeep(p, NUL);
    var path := Substitute(p, vals);
    assert path[0..] == path;
    MatchExactly(Fragments(p), |Names(p)|, path, 0, vals);
  }

  /** Every path that is matched is such a substitution, up to one separator after a last parameter. */
  lemma MatchedSubstitutes(p: string, path: string)
    requires NUL !in p && Captures(p, path).Some?
    ensures var vals := Captures(p, path).value;
            && |vals| == |Names(p)| && NoSlashes(vals)
            && (if EndsInParam(p) then UpToSlash(path, Substitute(p, vals)) else path == Substitute(p, vals))
  {
    hide Fragments, Names, Render, MatchFrom, Substitute;
    FragmentsKeep(p, NUL);
    OneFragmentEach(p);
    assert path[0..] == path;
    var vals := Captures(p, path).value;
    MatchExactly(Fragments(p), |Names(p)|, path, 0, vals);
    SubstituteIs(p, vals);
  }

  // ----- The loops -----

  datatype Matcher = Matcher(staticFragments: seq<string>, paramNames: seq<string>)

  lemma AtParam(p: string, last: nat)
    requires last <= |p|
    ensures var t := p[last..];
            var i := last + Find(t, ":");
            if i == |p| then FirstParam(t) == Plain
            else
              var j := i + 1 + Find(p[i + 1..], "/");
              FirstParam(t) == Param(p[last..i], p[i + 1..j], j < |p|, if j < |p| then p[j + 1..] else "")
  {
    hide Find;
    var t := p[last..];
    var k := Find(t, ":");
    if k < |t| {
      Tails(p, last, k + 1);
      var u := p[last + k + 1..];
      var m := Find(u, "/");
      Tails(p, last + k + 1, m);
      if m < |u| {
        Tails(p, last + k + 1, m + 1);
      }
    }
  }

  /** The text that is still to be compiled. */
  function Left(p: string, last: nat): string { if last <= |p| then p[last..] else "" }

  /** The constructor: the pattern in fragments and names, or nothing when a name repeats. */
  method Compile(p: string) returns (r: Option<Matcher>)
    ensures r.Some? <==> Distinct(Names(p))
    ensures r.Some? ==> r.value == Matcher(Fragments(p), Names(p))
  {
    hide FirstParam, Distinct, Find;
    var last := 0;
    var frags, names, nameSet := [], [], {};
    assert p[0..] == p;
    NoneRepeats();
    while last <= |p| && last + Find(p[last..], ":") < |p|
      invariant last <= |p| + 1
      invariant Fragments(p) == frags + Fragments(Left(p, last)) && Names(p) == names + Names(Left(p, last))
      invariant Distinct(names) && nameSet == set n | n in names
      decreases |p| + 1 - last
    {
      AtParam(p, last);
      var marker := last + Find(p[last..], ":");
      ghost var frags0, names0, rest := frags, names, FirstParam(p[last..]).rest;
      frags := frags + [p[last..marker]];
      var nameStart := marker + 1;
      var sep := nameStart + Find(p[nameStart..], "/");
      var name := p[nameStart..sep];
      Assoc(frags0, [p[last..marker]], Fragments(rest));
      Assoc(names0, [name], Names(rest));
      if name in nameSet {
        Repeats(names0, name, Names(rest));
        return None;
      }
      StaysDistinct(names0, name);
      nameSet := nameSet + {name};
      names := names + [name];
      last := sep + 1;
    }
    PlainLeft(p, last);
    assert names + [] == names && frags + [] == frags;
    if last < |p| {
      frags := frags + [p[last..]];
    }
    return Some(Matcher(frags, names));
  }

  lemma NoneRepeats()
    ensures Distinct([])
  {
  }

  lemma Repeats(names: seq<string>, name: string, rest: seq<string>)
    requires name in names
    ensures !Distinct((names + [name]) + rest)
  {
    var all := (names + [name]) + rest;
    var i :| 0 <= i < |names| && names[i] == name;
    assert all[i] == all[|names|];
  }

  lemma StaysDistinct(names: seq<string>, name: string)
    requires Distinct(names) && name !in names
    ensures Distinct(names + [name])
  {
  }

  lemma PlainLeft(p: string, last: nat)
    requires last <= |p| ==> last + Find(p[last..], ":") == |p|
    ensures Fragments(Left(p, last)) == (if last < |p| then [p[last..]] else []) && Names(Left(p, last)) == []
  {
    if last <= |p| {
      AtParam(p, last);
    }
  }

  /** `n` bytes compared one by one. */
  method Strncmp(a: string, b: string, n: nat) returns (equal: bool)
    requires n <= |a| && n <= |b|
    ensures equal == StrnEqual(a, b, n)
  {
    var i := 0;
    assert a[0..] == a && b[0..] == b;
    while i < n && a[i] == b[i] && a[i] != NUL
      invariant i <= n && StrnEqual(a, b, n) == StrnEqual(a[i..], b[i..], n - i)
    {
      assert a[i..][1..] == a[i + 1..] && b[i..][1..] == b[i + 1..];
      i := i + 1;
    }
    equal := i == n || a[i] == b[i];
  }

  /** `emplace`: a name keeps the value it was given first. */
  function Emplace(params: map<string, string>, name: string, value: string): map<string, string> {
    if name in params then params else params[name := value]
  }

  /** The parameters by name. */
  function Zip(names: seq<string>, vals: seq<string>): map<string, string>
    requires |names| == |vals|
  {
    if names == [] then map[] else Emplace(Zip(names[..|names| - 1], vals[..|vals| - 1]), names[|names| - 1], vals[|vals| - 1])
  }

  /** What is held by name: the value of the first parameter of that name, and so each value when no name repeats. */
  lemma {:induction false} ZipHolds(names: seq<string>, vals: seq<string>)
    requires |names| == |vals|
    ensures forall n :: n in Zip(names, vals) <==> n in names
    ensures forall i :: 0 <= i < |names| && names[i] !in names[..i] ==> Zip(names, vals)[names[i]] == vals[i]
    ensures Distinct(names) ==> forall i :: 0 <= i < |names| ==> Zip(names, vals)[names[i]] == vals[i]
  {
    if names != [] {
      var last := |names| - 1;
      ZipHolds(names[..last], vals[..last]);
      assert names == names[..last] + [names[last]];
      forall i | 0 <= i < |names| && names[i] !in names[..i] ensures Zip(names, vals)[names[i]] == vals[i] {
        if i < last {
          assert names[..last][..i] == names[..i];
        }
      }
    }
  }

  /** The values captured so far before those that are still to come. */
  function Prepend(got: seq<string>, o: Option<seq<string>>): Option<seq<string>> {
    if o.None? then None else Some(got + o.value)
  }

  /** One fragment, with the parameter after it, if there is one. */
  lemma MatchStep(frags: seq<string>, i: nat, n: nat, path: string, start: nat, got: seq<string>)
    requires i < |frags|
    ensures var o := Prepend(got, MatchFrom(frags[i..], n, path, start));
            var at := start + |frags[i]|;
            if at > |path| || !StrnEqual(path[start..], frags[i], |frags[i]|) then o.None?
            else if n == 0 then o == Prepend(got, MatchFrom(frags[i + 1..], 0, path, at))
            else
              var sep := at + Find(path[at..], "/");
              o == Prepend(got + [path[at..sep]], MatchFrom(frags[i + 1..], n - 1, path, sep + 1))
  {
    hide Find, StrnEqual;
    assert frags[i..][0] == frags[i] && frags[i..][1..] == frags[i + 1..];
    var at := start + |frags[i]|;
    if at <= |path| && n > 0 {
      var sep := at + Find(path[at..], "/");
      var more := MatchFrom(frags[i + 1..], n - 1, path, sep + 1);
      if more.Some? {
        Assoc(got, [path[at..sep]], more.value);
      }
    }
  }

  lemma {:induction false} ZipMore(names: seq<string>, got: seq<string>, value: string)
    requires |got| < |names|
    ensures Zip(names[..|got| + 1], got + [value]) == Emplace(Zip(names[..|got|], got), names[|got|], value)
  {
    hide Zip, Emplace;
    var more, vals, n := names[..|got| + 1], got + [value], |got|;
    ZipLast(more, vals);
    assert more[..n] == names[..n] && vals[..n] == got && more[n] == names[n] && vals[n] == value;
  }

  lemma {:induction false} ZipLast(names: seq<string>, vals: seq<string>)
    requires |names| == |vals| > 0
    ensures var n := |names| - 1; Zip(names, vals) == Emplace(Zip(names[..n], vals[..n]), names[n], vals[n])
  {
    hide Emplace;
  }

  lemma MatchStart(frags: seq<string>, n: nat, path: string)
    ensures MatchFrom(frags, n, path, 0) == Prepend([], MatchFrom(frags[0..], n, path, 0))
  {
    assert frags[0..] == frags;
    var o := MatchFrom(frags, n, path, 0);
    if o.Some? {
      assert [] + o.value == o.value;
    }
  }

  lemma MatchDone(frags: seq<string>, n: nat, path: string, start: nat, got: seq<string>)
    ensures Prepend(got, MatchFrom(frags[|frags|..], n, path, start)) == if start >= |path| then Some(got) else None
  {
    assert got + [] == got;
  }

  method Match(m: Matcher, path: string) returns (ok: bool, params: map<string, string>)
    requires |m.paramNames| <= |m.staticFragments| <= |m.paramNames| + 1
    ensures var o := MatchFrom(m.staticFragments, |m.paramNames|, path, 0);
            && ok == o.Some?
            && (ok ==> |o.value| == |m.paramNames| && params == Zip(m.paramNames, o.value)
                       && (Distinct(m.paramNames) ==> forall i :: 0 <= i < |o.value| ==>
                             m.paramNames[i] in params && params[m.paramNames[i]] == o.value[i]))
  {
    hide Find, StrnEqual, MatchFrom, Prepend, Zip, Distinct;
    params := map[];
    var start := 0;
    var n := |m.paramNames|;
    ghost var got: seq<string> := [];
    MatchStart(m.staticFragments, n, path);
    NothingZipped(m.paramNames);
    for i := 0 to |m.staticFragments|
      invariant |got| == (if i < n then i else n) && 0 <= start <= |path| + 1
      invariant params == Zip(m.paramNames[..|got|], got)
      invariant MatchFrom(m.staticFragments, n, path, 0)
             == Prepend(got, MatchFrom(m.staticFragments[i..], n - |got|, path, start))
    {
      MatchStep(m.staticFragments, i, n - |got|, path, start, got);
      var fragment := m.staticFragments[i];
      if start + |fragment| > |path| {
        return false, params;
      }
      var same := Strncmp(path[start..], fragment, |fragment|);
      if !same {
        return false, params;
      }
      start := start + |fragment|;
      if i < n {
        var sep := start + Find(path[start..], "/");
        var value := path[start..sep];
        ZipMore(m.paramNames, got, value);
        params := Emplace(params, m.paramNames[i], value);
        got := got + [value];
        start := sep + 1;
      }
    }
    MatchDone(m.staticFragments, n - |got|, path, start, got);
    assert m.paramNames[..n] == m.paramNames;
    if |got| == n {
      ZipHolds(m.paramNames, got);
    }
    ok := start >= |path|;
  }

  lemma NothingZipped(names: seq<string>)
    ensures Zip(names[..0], []) == map[]
  {
  }
}
