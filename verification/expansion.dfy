/** Path expansion, `internals.readFiles`: every argument is joined to the
    working directory and stat-ed; a directory becomes the listing of a
    recursive glob that prunes the ignored sub-trees, anything else becomes
    itself; the first stat or glob failure aborts the whole expansion; the
    per-argument candidates are concatenated in argument order and only the
    names with a known extension are kept, duplicates included. */
module Expansion {

  import opened Outcomes
  import opened Extension
  import opened Sequences

  /** What `fs.stat` reports about a path. */
  datatype Stat = Directory | NotDirectory | StatFailed(code: string)

  /** The world the expansion observes: the working directory, `fs.stat`
      and the glob walk (pattern and ignore globs to a listing). */
  datatype Env = Env(
    cwd: string,
    stat: string -> Stat,
    glob: (string, seq<string>) -> Result<seq<string>>)

  /** `Path.join(dir, p)`, taken as plain concatenation with a `/`. */
  function JoinPath(dir: string, p: string): string
  {
    dir + "/" + p
  }

  /** `Path.join(dir, '**', '**')`: everything below `dir`, at any depth. */
  function GlobPattern(dir: string): string
  {
    JoinPath(JoinPath(dir, "**"), "**")
  }

  // `ignore.map(i => Path.join(dir, i + '/**'))`: every ignore pattern
  // names a sub-tree of `dir` to prune, in the order of the ignore list.
  function IgnoreGlobs(dir: string, ignore: seq<string>): (globs: seq<string>)
    ensures |globs| == |ignore|
    ensures forall k :: 0 <= k < |ignore| ==> globs[k] == JoinPath(dir, ignore[k] + "/**")
  {
    if ignore == [] then []
    else [JoinPath(dir, ignore[0] + "/**")] + IgnoreGlobs(dir, ignore[1..])
  }

  /** The candidates one resolved argument contributes, or its failure. */
  function Candidates(path: string, ignore: seq<string>, env: Env): Result<seq<string>>
  {
    match env.stat(path)
    case StatFailed(code) => Err(StatError(code, path))
    case Directory => env.glob(GlobPattern(path), IgnoreGlobs(path, ignore))
    case NotDirectory => Ok([path])
  }

  function Resolve(env: Env, arg: string): string
  {
    JoinPath(env.cwd, arg)
  }

  /** The per-argument candidate lists in argument order, or the failure of
      the first argument (in argument order) that fails. */
  function Collect(args: seq<string>, ignore: seq<string>, env: Env): Result<seq<seq<string>>>
    decreases |args|
  {
    if args == [] then Ok([])
    else
      match Collect(args[..|args| - 1], ignore, env)
      case Err(e) => Err(e)
      case Ok(lists) =>
        match Candidates(Resolve(env, args[|args| - 1]), ignore, env)
        case Err(e) => Err(e)
        case Ok(c) => Ok(lists + [c])
  }

  /** `[].concat(...lists)`: the lists one after the other. */
  function Flatten(lists: seq<seq<string>>): (flat: seq<string>)
    ensures lists == [] ==> flat == []
  {
    if lists == [] then [] else Flatten(lists[..|lists| - 1]) + lists[|lists| - 1]
  }

  /** A name is in the flattened list exactly when it is in one of the
      lists. */
  lemma {:induction false} FlattenMembers(lists: seq<seq<string>>, x: string)
    ensures x in Flatten(lists) <==> exists i :: 0 <= i < |lists| && x in lists[i]
  {
    if lists != [] {
      var init := lists[..|lists| - 1];
      FlattenMembers(init, x);
      assert forall i :: 0 <= i < |init| ==> init[i] == lists[i];
    }
  }

  /** `.filter(hasKnownExtension)`: keeps only names with a known extension,
      taken from the input. */
  function FilterKnown(s: seq<string>): (r: seq<string>)
    ensures forall f :: f in r ==> f in s && HasKnownExtension(f)
  {
    if s == [] then []
    else (if HasKnownExtension(s[0]) then [s[0]] else []) + FilterKnown(s[1..])
  }

  /** The filter keeps every name with a known extension, as often as it
      occurs, and drops every other name. */
  lemma {:induction false} FilterKnownCounts(s: seq<string>, f: string)
    ensures multiset(FilterKnown(s))[f] == if HasKnownExtension(f) then multiset(s)[f] else 0
  {
    if s != [] {
      FilterKnownCounts(s[1..], f);
      assert s == [s[0]] + s[1..];
    }
  }

  /** The filter keeps order: filtering a concatenation filters each part. */
  lemma {:induction false} FilterKnownAppend(a: seq<string>, b: seq<string>)
    ensures FilterKnown(a + b) == FilterKnown(a) + FilterKnown(b)
  {
    if a == [] {
      assert a + b == b;
    } else {
      assert (a + b)[0] == a[0] && (a + b)[1..] == a[1..] + b;
      FilterKnownAppend(a[1..], b);
    }
  }

  /** What `readFiles` hands its callback. */
  function ReadFilesResult(args: seq<string>, ignore: seq<string>, env: Env): Result<seq<string>>
  {
    match Collect(args, ignore, env)
    case Err(e) => Err(e)
    case Ok(lists) => Ok(FilterKnown(Flatten(lists)))
  }

  /** Once a prefix of the arguments has failed, the whole expansion fails
      with that same error. */
  lemma {:induction false} CollectFailureSticks(args: seq<string>, n: nat, ignore: seq<string>, env: Env)
    requires n <= |args|
    requires Collect(args[..n], ignore, env).Err?
    ensures Collect(args, ignore, env) == Collect(args[..n], ignore, env)
    decreases |args| - n
  {
    if n < |args| {
      assert args[..n + 1][..n] == args[..n];
      CollectFailureSticks(args, n + 1, ignore, env);
    } else {
      assert args[..n] == args;
    }
  }

  /** The expansion succeeds exactly when every argument's stat (and glob,
      for a directory) succeeds, and then holds each argument's candidates,
      one list per argument, in argument order. */
  lemma {:induction false} CollectSucceeds(args: seq<string>, ignore: seq<string>, env: Env)
    ensures Collect(args, ignore, env).Ok? <==>
      forall i :: 0 <= i < |args| ==> Candidates(Resolve(env, args[i]), ignore, env).Ok?
    ensures Collect(args, ignore, env).Ok? ==>
      var lists := Collect(args, ignore, env).value;
      |lists| == |args| &&
      forall i :: 0 <= i < |args| ==> Candidates(Resolve(env, args[i]), ignore, env) == Ok(lists[i])
    decreases |args|
  {
    if args != [] {
      var init := args[..|args| - 1];
      CollectSucceeds(init, ignore, env);
      assert forall i :: 0 <= i < |init| ==> init[i] == args[i];
    }
  }

  /** On failure the error is that of the first failing argument: every
      argument before it succeeded. */
  lemma {:induction false} CollectFailsAtFirst(args: seq<string>, ignore: seq<string>, env: Env)
    requires Collect(args, ignore, env).Err?
    ensures exists i :: (0 <= i < |args|
      && Candidates(Resolve(env, args[i]), ignore, env) == Err(Collect(args, ignore, env).error)
      && forall j :: 0 <= j < i ==> Candidates(Resolve(env, args[j]), ignore, env).Ok?)
    decreases |args|
  {
    var init := args[..|args| - 1];
    assert forall i :: 0 <= i < |init| ==> init[i] == args[i];
    if Collect(init, ignore, env).Err? {
      CollectFailsAtFirst(init, ignore, env);
    } else {
      CollectSucceeds(init, ignore, env);
      assert Candidates(Resolve(env, args[|args| - 1]), ignore, env) == Err(Collect(args, ignore, env).error);
    }
  }

  /** `readFiles` as the loop over the arguments it performs, accumulating
      one candidate list per argument and stopping at the first failure. */
  method ReadFiles(args: seq<string>, ignore: seq<string>, env: Env) returns (r: Result<seq<string>>)
    ensures r == ReadFilesResult(args, ignore, env)
    ensures r.Ok? ==> forall f :: f in r.value ==> HasKnownExtension(f)
    ensures args == [] ==> r == Ok([])
  {
    var lists: seq<seq<string>> := [];
    var i := 0;
    while i < |args|
      invariant 0 <= i <= |args|
      invariant Collect(args[..i], ignore, env) == Ok(lists)
    {
      var path := Resolve(env, args[i]);
      assert args[..i + 1][..i] == args[..i];
      var candidates: seq<string>;
      match env.stat(path) {
        case StatFailed(code) =>
          CollectFailureSticks(args, i + 1, ignore, env);
          return Err(StatError(code, path));
        case Directory =>
          var listing := env.glob(GlobPattern(path), IgnoreGlobs(path, ignore));
          if listing.Err? {
            CollectFailureSticks(args, i + 1, ignore, env);
            return Err(listing.error);
          }
          candidates := listing.value;
        case NotDirectory =>
          candidates := [path];
      }
      lists := lists + [candidates];
      i := i + 1;
    }
    assert args[..i] == args;
    r := Ok(FilterKnown(Flatten(lists)));
  }

  /** A stat failure on any argument fails the expansion, whatever the
      other arguments are. */
  lemma StatFailureAborts(args: seq<string>, i: nat, ignore: seq<string>, env: Env)
    requires i < |args| && env.stat(Resolve(env, args[i])).StatFailed?
    ensures ReadFilesResult(args, ignore, env).Err?
  {
    CollectSucceeds(args, ignore, env);
  }

  /** A single argument expands to the filtered candidates it contributes. */
  lemma SingleArgument(arg: string, ignore: seq<string>, env: Env)
    ensures Candidates(Resolve(env, arg), ignore, env).Ok? ==>
      ReadFilesResult([arg], ignore, env) == Ok(FilterKnown(Candidates(Resolve(env, arg), ignore, env).value))
    ensures Candidates(Resolve(env, arg), ignore, env).Err? ==>
      ReadFilesResult([arg], ignore, env) == Candidates(Resolve(env, arg), ignore, env)
  {
    var args := [arg];
    assert args[..|args| - 1] == [] && args[|args| - 1] == arg;
    assert Collect(args[..|args| - 1], ignore, env) == Ok([]);
    var c := Candidates(Resolve(env, arg), ignore, env);
    if c.Ok? {
      assert Collect(args, ignore, env) == Ok([] + [c.value]);
      var lists := [c.value];
      assert lists[..|lists| - 1] == [];
      assert Flatten(lists) == c.value;
    }
  }

  /** A non-directory argument contributes exactly its resolved path, which
      survives when it has a known extension. */
  lemma FileArgument(arg: string, ignore: seq<string>, env: Env)
    requires env.stat(Resolve(env, arg)) == NotDirectory
    ensures ReadFilesResult([arg], ignore, env) ==
      Ok(if HasKnownExtension(Resolve(env, arg)) then [Resolve(env, arg)] else [])
  {
    var path := Resolve(env, arg);
    SingleArgument(arg, ignore, env);
    assert [path][1..] == [];
    assert Candidates(path, ignore, env) == Ok([path]);
    assert FilterKnown([path]) == (if HasKnownExtension(path) then [path] else []) + FilterKnown([]);
    assert [path] + [] == [path];
  }

  /** A directory argument contributes its glob listing, asked for with one
      pruning glob per ignore pattern, filtered by extension. */
  lemma DirectoryArgument(arg: string, ignore: seq<string>, env: Env, listing: seq<string>)
    requires env.stat(Resolve(env, arg)) == Directory
    requires env.glob(GlobPattern(Resolve(env, arg)), IgnoreGlobs(Resolve(env, arg), ignore)) == Ok(listing)
    ensures ReadFilesResult([arg], ignore, env) == Ok(FilterKnown(listing))
  {
    SingleArgument(arg, ignore, env);
  }

  /** The per-argument lists of two runs of arguments, when both succeed,
      are those of the first run followed by those of the second. */
  lemma {:induction false} CollectAppend(a: seq<string>, b: seq<string>, ignore: seq<string>, env: Env)
    requires Collect(a, ignore, env).Ok? && Collect(b, ignore, env).Ok?
    ensures Collect(a + b, ignore, env) == Ok(Collect(a, ignore, env).value + Collect(b, ignore, env).value)
    decreases |b|
  {
    var la := Collect(a, ignore, env).value;
    if b == [] {
      assert a + b == a && la + [] == la;
    } else {
      var b', x := b[..|b| - 1], b[|b| - 1];
      var c := Candidates(Resolve(env, x), ignore, env);
      assert Collect(b', ignore, env).Ok? && c.Ok?;
      var lb' := Collect(b', ignore, env).value;
      CollectAppend(a, b', ignore, env);
      var ab := a + b;
      assert ab[..|ab| - 1] == a + b' && ab[|ab| - 1] == x;
      assert Collect(ab, ignore, env) == Ok((la + lb') + [c.value]);
      AppendAssociative(la, lb', [c.value]);
    }
  }

  lemma {:induction false} FlattenAppend(x: seq<seq<string>>, y: seq<seq<string>>)
    ensures Flatten(x + y) == Flatten(x) + Flatten(y)
    decreases |y|
  {
    if y == [] {
      assert x + y == x;
    } else {
      var y', last := y[..|y| - 1], y[|y| - 1];
      FlattenAppend(x, y');
      var xy := x + y;
      assert xy[..|xy| - 1] == x + y' && xy[|xy| - 1] == last;
      AppendAssociative(Flatten(x), Flatten(y'), last);
    }
  }

  /** With both halves expanding, the expansion of two runs of arguments is
      the expansion of the first followed by that of the second. */
  lemma ExpansionAppend(a: seq<string>, b: seq<string>, ignore: seq<string>, env: Env)
    requires ReadFilesResult(a, ignore, env).Ok? && ReadFilesResult(b, ignore, env).Ok?
    ensures ReadFilesResult(a + b, ignore, env)
      == Ok(ReadFilesResult(a, ignore, env).value + ReadFilesResult(b, ignore, env).value)
  {
    var la, lb := Collect(a, ignore, env).value, Collect(b, ignore, env).value;
    CollectAppend(a, b, ignore, env);
    FlattenAppend(la, lb);
    FilterKnownAppend(Flatten(la), Flatten(lb));
  }

  /** Naming the same arguments twice lints every file they expand to twice:
      nothing is de-duplicated. */
  lemma DuplicatesKept(args: seq<string>, ignore: seq<string>, env: Env)
    requires ReadFilesResult(args, ignore, env).Ok?
    ensures ReadFilesResult(args + args, ignore, env)
      == Ok(ReadFilesResult(args, ignore, env).value + ReadFilesResult(args, ignore, env).value)
  {
    ExpansionAppend(args, args, ignore, env);
  }

  // `path` lies in the sub-tree an ignore glob `d/**` names: it is `d`
  // itself or something below `d`.
  predicate InSubtree(path: string, ignoreGlob: string)
  {
    var n := |ignoreGlob|;
    n >= 3 && ignoreGlob[n - 3..] == "/**"
    && (path == ignoreGlob[..n - 3] || (|path| > n - 2 && path[..n - 2] == ignoreGlob[..n - 2]))
  }

  /** A glob walk that honours its ignore globs: nothing it lists lies in a
      sub-tree one of them names. */
  ghost predicate HonoursIgnore(glob: (string, seq<string>) -> Result<seq<string>>)
  {
    forall pattern, globs, path, g ::
      glob(pattern, globs).Ok? && path in glob(pattern, globs).value && g in globs
      ==> !InSubtree(path, g)
  }

  /** With a glob walk that honours its ignore list, expanding a directory
      yields nothing below a sub-directory an ignore pattern names. */
  lemma IgnoredSubtreePruned(arg: string, ignore: seq<string>, env: Env, k: nat)
    requires HonoursIgnore(env.glob)
    requires env.stat(Resolve(env, arg)) == Directory
    requires k < |ignore|
    ensures ReadFilesResult([arg], ignore, env).Ok? ==>
      forall f :: f in ReadFilesResult([arg], ignore, env).value ==>
        !InSubtree(f, JoinPath(Resolve(env, arg), ignore[k] + "/**"))
  {
    var dir := Resolve(env, arg);
    var globs := IgnoreGlobs(dir, ignore);
    var listing := env.glob(GlobPattern(dir), globs);
    if listing.Ok? {
      DirectoryArgument(arg, ignore, env, listing.value);
      assert globs[k] in globs;
      forall f | f in FilterKnown(listing.value)
        ensures !InSubtree(f, JoinPath(dir, ignore[k] + "/**"))
      {
        assert f in listing.value;
      }
    } else {
      assert [arg][..0] == [];
    }
  }
}
