/** Two foldings of `.` and `..`, one for the paths `config` prints and one for the
    audit, and what the audit says about a bind source. */
module HostPaths {
  import opened Prelude

  // ----- folding as the audit does it -----

  /** One piece of a path acts on the stack of names. */
  function Push(stack: seq<string>, piece: string): seq<string> {
    if piece == "" || piece == "." then stack
    else if piece == ".." then (if stack == [] then [] else stack[..|stack| - 1])
    else stack + [piece]
  }

  function Fold(pieces: seq<string>): seq<string> {
    if pieces == [] then [] else Push(Fold(pieces[..|pieces| - 1]), pieces[|pieces| - 1])
  }

  function Rooted(names: seq<string>): string {
    "/" + Join(names, "/")
  }

  /** `normalize_host_path` */
  function NormalizeHostPath(source: string): string {
    Rooted(Fold(SplitOn(source, '/')))
  }

  predicate IsName(piece: string) {
    piece != "" && piece != "." && piece != ".." && '/' !in piece
  }

  ghost predicate AreNames(names: seq<string>) {
    forall i :: 0 <= i < |names| ==> IsName(names[i])
  }

  // ----- folding as `config` does it -----

  datatype Component = RootDir | CurDir | ParentDir | Normal(name: string)

  function Pieces(pieces: seq<string>): seq<Component> {
    if pieces == [] then []
    else
      var front := Pieces(pieces[..|pieces| - 1]);
      var last := pieces[|pieces| - 1];
      if last == "" || last == "." then front
      else front + [if last == ".." then ParentDir else Normal(last)]
  }

  predicate IsAbsolute(path: string) {
    path != "" && path[0] == '/'
  }

  /** `Path::components`: the root, a `.` only where a relative path starts with one,
      then the names and the `..`s. */
  function Components(path: string): seq<Component> {
    var parts := SplitOn(path, '/');
    (if IsAbsolute(path) then [RootDir] else if parts[0] == "." then [CurDir] else []) + Pieces(parts)
  }

  function Step(out: seq<Component>, c: Component): seq<Component> {
    match c
    case CurDir => out
    case ParentDir => if out != [] && out[|out| - 1].Normal? then out[..|out| - 1] else out + [c]
    case _ => out + [c]
  }

  function FoldComponents(comps: seq<Component>): seq<Component> {
    if comps == [] then [] else Step(FoldComponents(comps[..|comps| - 1]), comps[|comps| - 1])
  }

  function NameOf(c: Component): string {
    match c case RootDir => "/" case CurDir => "." case ParentDir => ".." case Normal(name) => name
  }

  /** `PathBuf::push` of one component. */
  function PushComponent(path: string, c: Component): string {
    if c.RootDir? then "/"
    else if path == "" || path[|path| - 1] == '/' then path + NameOf(c)
    else path + "/" + NameOf(c)
  }

  function PathOf(comps: seq<Component>): string {
    if comps == [] then "" else PushComponent(PathOf(comps[..|comps| - 1]), comps[|comps| - 1])
  }

  /** `normalize_lexically` */
  function NormalizeLexically(path: string): string {
    PathOf(FoldComponents(Components(path)))
  }

  // ----- the two foldings compared -----

  /** How far the pieces have climbed above where they started, at their highest:
      each `..` climbs one, each name comes down one. */
  function Height(pieces: seq<string>): int {
    if pieces == [] then 0
    else
      var last := pieces[|pieces| - 1];
      var before := Height(pieces[..|pieces| - 1]);
      if last == "" || last == "." then before else if last == ".." then before + 1 else before - 1
  }

  function Climb(pieces: seq<string>): nat {
    if pieces == [] then 0
    else
      var before := Climb(pieces[..|pieces| - 1]);
      if Height(pieces) > before then Height(pieces) else before
  }

  function Parents(n: nat): seq<Component> {
    seq(n, _ => ParentDir)
  }

  function Names(names: seq<string>): seq<Component> {
    seq(|names|, i requires 0 <= i < |names| => Normal(names[i]))
  }

  lemma {:induction false} FoldGivesNames(pieces: seq<string>)
    requires forall i :: 0 <= i < |pieces| ==> '/' !in pieces[i]
    ensures AreNames(Fold(pieces))
  {
    if pieces != [] {
      FoldGivesNames(pieces[..|pieces| - 1]);
    }
  }

  /** The depth of the stack is what was climbed less where the pieces stand now. */
  lemma {:induction false} FoldDepth(pieces: seq<string>)
    ensures |Fold(pieces)| == Climb(pieces) - Height(pieces)
  {
    if pieces != [] {
      FoldDepth(pieces[..|pieces| - 1]);
    }
  }

  function Stack(climbed: nat, names: seq<string>): seq<Component> {
    [RootDir] + Parents(climbed) + Names(names)
  }

  lemma StepPops(climbed: nat, names: seq<string>)
    requires names != []
    ensures Step(Stack(climbed, names), ParentDir) == Stack(climbed, names[..|names| - 1])
  {
    var stack := Stack(climbed, names);
    assert stack[|stack| - 1] == Normal(names[|names| - 1]);
  }

  lemma StepClimbs(climbed: nat)
    ensures Step(Stack(climbed, []), ParentDir) == Stack(climbed + 1, [])
  {
    var stack := Stack(climbed, []);
    assert stack == [RootDir] + Parents(climbed);
    assert !stack[|stack| - 1].Normal?;
    assert Parents(climbed) + [ParentDir] == Parents(climbed + 1);
  }

  lemma StepDescends(climbed: nat, names: seq<string>, name: string)
    ensures Step(Stack(climbed, names), Normal(name)) == Stack(climbed, names + [name])
  {
    assert Names(names) + [Normal(name)] == Names(names + [name]);
  }

  lemma FoldComponentsOneMore(comps: seq<Component>, c: Component)
    ensures FoldComponents(comps + [c]) == Step(FoldComponents(comps), c)
  {
    assert (comps + [c])[..|comps|] == comps;
  }

  /** The stack of `normalize_lexically` is the root, one `..` for each step the path
      climbs above it, then the stack of `normalize_host_path`. */
  lemma {:induction false} LexicalStack(pieces: seq<string>)
    ensures FoldComponents([RootDir] + Pieces(pieces)) == Stack(Climb(pieces), Fold(pieces))
  {
    if pieces == [] {
      assert [RootDir] + Pieces(pieces) == [] + [RootDir] == Stack(0, []);
      FoldComponentsOneMore([], RootDir);
    } else {
      hide FoldComponents, Step, Stack;
      var (front, last) := (pieces[..|pieces| - 1], pieces[|pieces| - 1]);
      LexicalStack(front);
      FoldDepth(front);
      if last != "" && last != "." {
        var c := if last == ".." then ParentDir else Normal(last);
        assert [RootDir] + Pieces(pieces) == ([RootDir] + Pieces(front)) + [c];
        FoldComponentsOneMore([RootDir] + Pieces(front), c);
        if last != ".." {
          StepDescends(Climb(front), Fold(front), last);
        } else if Fold(front) != [] {
          StepPops(Climb(front), Fold(front));
        } else {
          StepClimbs(Climb(front));
        }
      }
    }
  }

  function Ups(n: nat): seq<string> {
    seq(n, _ => "..")
  }

  lemma JoinOneMore(names: seq<string>, last: string)
    ensures Join(names + [last], "/") == if names == [] then last else Join(names, "/") + "/" + last
  {
    if names != [] {
      assert (names + [last])[1..] == names[1..] + [last];
      JoinOneMore(names[1..], last);
      if |names| > 1 {
        var (a, b) := (names[0], Join(names[1..], "/"));
        assert a + "/" + (b + "/" + last) == a + "/" + b + "/" + last;
      } else {
        assert names[1..] == [];
      }
    }
  }

  /** Text a component spells: never empty, never with a slash. */
  predicate IsPart(part: string) {
    part != "" && '/' !in part
  }

  lemma {:induction false} RootedEnd(names: seq<string>)
    requires forall i :: 0 <= i < |names| ==> IsPart(names[i])
    ensures var path := Rooted(names); path[|path| - 1] == '/' <==> names == []
  {
    if names == [] {
      EmptyJoin();
    } else {
      var n := |names| - 1;
      assert names == names[..n] + [names[n]];
      JoinOneMore(names[..n], names[n]);
      var path := Rooted(names);
      assert IsPart(names[n]);
      assert path[|path| - 1] == names[n][|names[n]| - 1];
      assert path[|path| - 1] in names[n];
    }
  }

  lemma PushSpells(names: seq<string>, c: Component)
    requires forall i :: 0 <= i < |names| ==> IsPart(names[i])
    requires c != RootDir
    ensures PushComponent(Rooted(names), c) == Rooted(names + [NameOf(c)])
  {
    RootedEnd(names);
    JoinOneMore(names, NameOf(c));
    if names == [] {
      EmptyJoin();
    } else {
      assert Rooted(names) + "/" + NameOf(c) == "/" + (Join(names, "/") + "/" + NameOf(c));
    }
  }

  /** What the pushes spell. */
  lemma {:induction false} PathOfRooted(names: seq<string>, comps: seq<Component>)
    requires |names| == |comps| && forall i :: 0 <= i < |names| ==> comps[i] != RootDir && names[i] == NameOf(comps[i])
    requires forall i :: 0 <= i < |names| ==> IsPart(names[i])
    ensures PathOf([RootDir] + comps) == Rooted(names)
  {
    var all := [RootDir] + comps;
    if comps == [] {
      assert all == [RootDir] && all[..0] == [];
      EmptyJoin();
    } else {
      hide PushComponent, Rooted, NameOf, IsPart;
      var n := |comps| - 1;
      assert all[..|all| - 1] == [RootDir] + comps[..n];
      PathOfRooted(names[..n], comps[..n]);
      PushSpells(names[..n], comps[n]);
      assert names == names[..n] + [names[n]];
    }
  }

  lemma PiecesHaveNoSlash(path: string)
    ensures forall i :: 0 <= i < |SplitOn(path, '/')| ==> '/' !in SplitOn(path, '/')[i]
  {
    SplitOnIsCut(path, '/');
    var parts := SplitOn(path, '/');
    assert forall i :: 0 <= i < |parts| ==> parts[i] in parts;
  }

  /** For an absolute path `config` keeps the `..`s that climb above the root, and
      otherwise spells what the audit folds to. */
  lemma LexicalIsFoldedUnderUps(path: string, pieces: seq<string>)
    requires IsAbsolute(path) && pieces == SplitOn(path, '/')
    ensures NormalizeLexically(path) == Rooted(Ups(Climb(pieces)) + Fold(pieces))
  {
    hide SplitOn, Fold, FoldComponents;
    PiecesHaveNoSlash(path);
    FoldGivesNames(pieces);
    LexicalStack(pieces);
    var names := Ups(Climb(pieces)) + Fold(pieces);
    var comps := Parents(Climb(pieces)) + Names(Fold(pieces));
    assert Stack(Climb(pieces), Fold(pieces)) == [RootDir] + comps;
    forall i | 0 <= i < |names| ensures comps[i] != RootDir && names[i] == NameOf(comps[i]) && IsPart(names[i]) {
      if i >= Climb(pieces) {
        assert IsName(Fold(pieces)[i - Climb(pieces)]);
      }
    }
    PathOfRooted(names, comps);
  }

  lemma SplitRooted(names: seq<string>)
    requires forall i :: 0 <= i < |names| ==> '/' !in names[i]
    ensures SplitOn(Rooted(names), '/') == [""] + if names == [] then [""] else names
  {
    hide SplitOn, Join;
    SplitOnJoin("", '/', Join(names, "/"));
    assert Rooted(names) == "" + ['/'] + Join(names, "/");
    if names == [] {
      assert Join(names, "/") == "" by { EmptyJoin(); }
      assert SplitOn("", '/') == [""] by { EmptySplit(); }
    } else {
      assert "/" == ['/'];
      SplitJoined(names, '/');
    }
  }

  lemma EmptyJoin()
    ensures Join([], "/") == ""
  {}

  lemma EmptySplit()
    ensures SplitOn("", '/') == [""]
  {}

  lemma {:induction false} FoldOfNames(names: seq<string>)
    requires AreNames(names)
    ensures Fold(names) == names
  {
    if names != [] {
      FoldOfNames(names[..|names| - 1]);
      assert IsName(names[|names| - 1]);
      assert names[..|names| - 1] + [names[|names| - 1]] == names;
    }
  }

  lemma {:induction false} NamesNeverClimb(names: seq<string>)
    requires AreNames(names)
    ensures Climb(names) == 0 && Height(names) == -|names|
  {
    if names != [] {
      NamesNeverClimb(names[..|names| - 1]);
      assert IsName(names[|names| - 1]);
    }
  }

  /** An empty piece or a `.` anywhere changes nothing. */
  lemma {:induction false} FoldSkips(a: seq<string>, skip: string, b: seq<string>)
    requires skip == "" || skip == "."
    ensures Fold(a + [skip] + b) == Fold(a + b) && Climb(a + [skip] + b) == Climb(a + b) && Height(a + [skip] + b) == Height(a + b)
  {
    var s := a + [skip] + b;
    if b == [] {
      assert s[..|s| - 1] == a && a + b == a;
      ClimbIsAbove(a);
    } else {
      assert s[..|s| - 1] == a + [skip] + b[..|b| - 1];
      assert (a + b)[..|a + b| - 1] == a + b[..|b| - 1];
      FoldSkips(a, skip, b[..|b| - 1]);
    }
  }

  lemma ClimbIsAbove(pieces: seq<string>)
    ensures Climb(pieces) >= Height(pieces)
  {}

  lemma FoldRootedNames(names: seq<string>)
    requires AreNames(names)
    ensures Fold(SplitOn(Rooted(names), '/')) == names && Climb(SplitOn(Rooted(names), '/')) == 0
  {
    hide SplitOn, Rooted, Fold, Climb, Height;
    assert forall i :: 0 <= i < |names| ==> IsName(names[i]);
    SplitRooted(names);
    FoldOfNames(names);
    NamesNeverClimb(names);
    FoldSkips([], "", names);
    assert [] + [""] + names == [""] + names && [] + names == names;
    if names == [] {
      FoldSkips([""], "", []);
      assert [""] + [""] + [] == [""] + [""] && [""] + [] == [""];
    }
  }

  /** Folding twice is folding once, and nothing is left to fold: every component of
      the result is a name. */
  lemma FoldingIsIdempotent(source: string)
    ensures NormalizeHostPath(NormalizeHostPath(source)) == NormalizeHostPath(source)
    ensures var folded := NormalizeHostPath(source);
            IsAbsolute(folded) && exists names :: AreNames(names) && folded == Rooted(names)
  {
    hide SplitOn, Fold, Join;
    PiecesHaveNoSlash(source);
    FoldGivesNames(SplitOn(source, '/'));
    FoldRootedNames(Fold(SplitOn(source, '/')));
  }

  lemma {:induction false} RootedIsFaithful(a: seq<string>, b: seq<string>)
    requires forall i :: 0 <= i < |a| ==> '/' !in a[i] && a[i] != ""
    requires forall i :: 0 <= i < |b| ==> '/' !in b[i] && b[i] != ""
    requires Rooted(a) == Rooted(b)
    ensures a == b
  {
    hide SplitOn, Rooted;
    SplitRooted(a);
    SplitRooted(b);
    var (x, y) := (if a == [] then [""] else a, if b == [] then [""] else b);
    assert ([""] + x)[1..] == x && ([""] + y)[1..] == y;
    assert a == [] <==> x[0] == "";
    assert b == [] <==> y[0] == "";
  }

  /** The two foldings spell the same path exactly when the path never climbs above
      the root. */
  lemma FoldingsAgreeIffBelowRoot(path: string)
    requires IsAbsolute(path)
    ensures NormalizeLexically(path) == NormalizeHostPath(path) <==> Climb(SplitOn(path, '/')) == 0
  {
    hide SplitOn, Fold, Rooted, Climb, NormalizeLexically;
    var pieces := SplitOn(path, '/');
    LexicalIsFoldedUnderUps(path, pieces);
    PiecesHaveNoSlash(path);
    FoldGivesNames(pieces);
    var names := Ups(Climb(pieces)) + Fold(pieces);
    forall i | 0 <= i < |names| ensures '/' !in names[i] && names[i] != "" {
      if i >= Climb(pieces) {
        assert IsName(Fold(pieces)[i - Climb(pieces)]);
      }
    }
    assert forall i :: 0 <= i < |Fold(pieces)| ==> IsName(Fold(pieces)[i]);
    if Rooted(names) == Rooted(Fold(pieces)) {
      RootedIsFaithful(names, Fold(pieces));
    }
    assert Climb(pieces) == 0 ==> names == Fold(pieces);
  }

  // ----- walking a tree without links -----

  /** A directory tree: each node has one parent, the root is its own. */
  datatype Tree = Tree(root: nat, parent: nat -> nat, child: (nat, string) -> Option<nat>)

  ghost predicate LinkFree(t: Tree) {
    && t.parent(t.root) == t.root
    && forall n: nat, name: string :: t.child(n, name).Some? ==> t.parent(t.child(n, name).value) == n
  }

  /** Where a piece leads, as pathname resolution has it: section 4.13 of
      POSIX.1-2017 Base Definitions. */
  function Walk(t: Tree, pieces: seq<string>): Option<nat> {
    if pieces == [] then Some(t.root)
    else
      match Walk(t, pieces[..|pieces| - 1])
      case None => None
      case Some(n) =>
        var last := pieces[|pieces| - 1];
        if last == "" || last == "." then Some(n)
        else if last == ".." then Some(t.parent(n))
        else t.child(n, last)
  }

  /** Every directory the path passes through is there. */
  ghost predicate PassesThrough(t: Tree, pieces: seq<string>) {
    forall k :: 0 <= k <= |pieces| ==> Walk(t, Fold(pieces[..k])).Some?
  }

  lemma {:induction false} WalkNames(t: Tree, names: seq<string>)
    requires LinkFree(t) && AreNames(names) && names != [] && Walk(t, names).Some?
    ensures Walk(t, names[..|names| - 1]).Some?
    ensures t.parent(Walk(t, names).value) == Walk(t, names[..|names| - 1]).value
  {
    assert IsName(names[|names| - 1]);
  }

  lemma {:induction false} WalkOne(t: Tree, stack: seq<string>, piece: string)
    requires LinkFree(t) && AreNames(stack) && '/' !in piece
    ensures Walk(t, stack).Some? ==> Walk(t, Push(stack, piece)) == Walk(t, stack + [piece])
  {
    assert (stack + [piece])[..|stack|] == stack;
    if piece == ".." && stack != [] && Walk(t, stack).Some? {
      WalkNames(t, stack);
    }
  }

  /** The folded path leads where the written one leads, in a tree without links; and
      the written one leads somewhere exactly when every directory it passes through
      is there. */
  lemma {:induction false} FoldingKeepsTheWalk(t: Tree, pieces: seq<string>)
    requires LinkFree(t) && forall i :: 0 <= i < |pieces| ==> '/' !in pieces[i]
    ensures Walk(t, pieces).Some? ==> Walk(t, Fold(pieces)) == Walk(t, pieces)
    ensures Walk(t, pieces).Some? <==> PassesThrough(t, pieces)
  {
    if pieces == [] {
      assert forall k :: 0 <= k <= |pieces| ==> pieces[..k] == [];
    } else {
      var n := |pieces| - 1;
      var front := pieces[..n];
      FoldingKeepsTheWalk(t, front);
      FoldGivesNames(front);
      WalkOne(t, Fold(front), pieces[n]);
      assert (Fold(front) + [pieces[n]])[..|Fold(front)|] == Fold(front);
      PassesOneMore(t, pieces);
    }
  }

  lemma PassesOneMore(t: Tree, pieces: seq<string>)
    requires pieces != []
    ensures PassesThrough(t, pieces) <==> PassesThrough(t, pieces[..|pieces| - 1]) && Walk(t, Fold(pieces)).Some?
  {
    hide Walk, Fold;
    var n := |pieces| - 1;
    var front := pieces[..n];
    assert pieces[..n + 1] == pieces;
    assert forall k :: 0 <= k <= n ==> front[..k] == pieces[..k];
  }

  // ----- what the audit calls sensitive -----

  const SENSITIVE_BIND_EXACT: seq<string> := [
    "/var/run/docker.sock",
    "/run/docker.sock",
    "/var/run/podman/podman.sock",
    "/run/podman/podman.sock"
  ]

  const SENSITIVE_BIND_PREFIXES: seq<string> := [
    "/proc", "/sys", "/dev", "/etc", "/boot", "/root",
    "/run/podman", "/var/run/podman", "/run/docker", "/var/run/docker"
  ]

  datatype Rootless = RootlessSocket | RootlessDirectory

  datatype Kind = WholeHost | RuntimeSocket | RuntimeDirectory | Listed(prefix: string)

  datatype Reason = Reason(path: string, readOnly: bool, kind: Kind)

  /** What follows `/run/user/`: an all-digit user, then `podman`. */
  function UnderUser(rest: string): Option<Rootless> {
    match IndexOf(rest, '/')
    case None => None
    case Some(i) =>
      if i == 0 || !AllDigits(rest[..i]) then None
      else if rest[i + 1..] == "podman/podman.sock" then Some(RootlessSocket)
      else if rest[i + 1..] == "podman" || "podman/" <= rest[i + 1..] then Some(RootlessDirectory)
      else None
  }

  function RootlessPodmanPath(path: string): Option<Rootless> {
    match StripPrefix(path, "/run/user/")
    case Some(rest) => UnderUser(rest)
    case None =>
      match StripPrefix(path, "/var/run/user/")
      case Some(rest) => UnderUser(rest)
      case None => None
  }

  /** `path` is `prefix` or lies below it. */
  predicate Under(path: string, prefix: string) {
    path == prefix || prefix + "/" <= path
  }

  function FirstListed(path: string, prefixes: seq<string>): (r: Option<string>)
    ensures r.Some? ==> r.value in prefixes && Under(path, r.value)
    ensures r.None? ==> forall i :: 0 <= i < |prefixes| ==> !Under(path, prefixes[i])
  {
    if prefixes == [] then None
    else if Under(path, prefixes[0]) then Some(prefixes[0])
    else FirstListed(path, prefixes[1..])
  }

  /** `sensitive_bind_reason` */
  function SensitiveBindReason(path: string, readOnly: bool): Option<Reason> {
    var rootless := RootlessPodmanPath(path);
    if path == "/" then Some(Reason(path, readOnly, WholeHost))
    else if path in SENSITIVE_BIND_EXACT || rootless == Some(RootlessSocket) then Some(Reason(path, readOnly, RuntimeSocket))
    else if rootless == Some(RootlessDirectory) then Some(Reason(path, readOnly, RuntimeDirectory))
    else
      match FirstListed(path, SENSITIVE_BIND_PREFIXES)
      case Some(prefix) => Some(Reason(path, readOnly, Listed(prefix)))
      case None => None
  }

  predicate IsUid(uid: string) {
    uid != "" && AllDigits(uid)
  }

  /** A directory that must not be mounted, nor anything below it. */
  ghost predicate Dangerous(prefix: string) {
    || prefix in SENSITIVE_BIND_PREFIXES
    || exists uid :: IsUid(uid) && (prefix == Rooted(["run", "user", uid, "podman"]) || prefix == Rooted(["var", "run", "user", uid, "podman"]))
  }

  /** The root, a runtime socket, or a path in a dangerous directory. */
  ghost predicate Sensitive(path: string) {
    path == "/" || path in SENSITIVE_BIND_EXACT || exists prefix :: Dangerous(prefix) && Under(path, prefix)
  }

  lemma RootedOfFour(a: string, b: string, c: string, d: string)
    ensures Rooted([a, b, c, d]) == "/" + a + "/" + b + "/" + c + "/" + d
    ensures Rooted([a, b, c]) == "/" + a + "/" + b + "/" + c
    ensures Rooted([a, b]) == "/" + a + "/" + b
    ensures Rooted([a]) == "/" + a
  {
    assert [a, b, c, d][1..] == [b, c, d] && [b, c, d][1..] == [c, d] && [c, d][1..] == [d];
    assert [a, b, c][1..] == [b, c] && [b, c][1..] == [c];
    assert [a, b][1..] == [b];
    assert Join([c, d], "/") == c + "/" + d;
    assert Join([b, c, d], "/") == b + "/" + (c + "/" + d);
    assert Join([a, b, c, d], "/") == a + "/" + (b + "/" + (c + "/" + d));
    assert "/" + (a + "/" + (b + "/" + (c + "/" + d))) == "/" + a + "/" + b + "/" + c + "/" + d;
    assert Join([b, c], "/") == b + "/" + c;
    assert Join([a, b], "/") == a + "/" + b;
    assert Join([a, b, c], "/") == a + "/" + (b + "/" + c);
    assert "/" + (a + "/" + (b + "/" + c)) == "/" + a + "/" + b + "/" + c;
    assert "/" + (a + "/" + b) == "/" + a + "/" + b;
  }

  lemma RootedUser(uid: string)
    ensures Rooted(["run", "user", uid, "podman"]) == "/run/user/" + (uid + "/podman")
    ensures Rooted(["var", "run", "user", uid, "podman"]) == "/var/run/user/" + (uid + "/podman")
  {
    RootedOfFour("run", "user", uid, "podman");
    var r := "/" + "run" + "/" + "user" + "/" + uid + "/" + "podman";
    assert r == "/run/user/" + (uid + "/podman");
    var names := ["var", "run", "user", uid, "podman"];
    assert names[1..] == ["run", "user", uid, "podman"];
    assert "/" + Join(names[1..], "/") == r;
    assert Rooted(names) == "/" + ("var" + "/" + Join(names[1..], "/"));
    assert Rooted(names) == "/var" + ("/" + Join(names[1..], "/"));
    assert "/var" + ("/run/user/" + (uid + "/podman")) == "/var/run/user/" + (uid + "/podman");
  }

  lemma UidHasNoSlash(uid: string)
    requires IsUid(uid)
    ensures '/' !in uid
  {
    assert !IsDigit('/');
  }

  lemma UnderBelow(base: string, rest: string, x: string)
    ensures Under(base + rest, base + x) <==> Under(rest, x)
  {
    assert base + x + "/" == base + (x + "/");
    if base + rest == base + x {
      assert (base + rest)[|base|..] == rest && (base + x)[|base|..] == x;
    }
    if base + (x + "/") <= base + rest {
      var n := |x + "/"|;
      assert (base + rest)[|base|..] == rest && (base + (x + "/"))[|base|..] == x + "/";
      assert (base + rest)[..|base| + n] == base + (x + "/");
      assert rest[..n] == (base + rest)[..|base| + n][|base|..];
    }
    if x + "/" <= rest {
      assert rest == (x + "/") + rest[|x + "/"|..];
      assert base + rest == base + (x + "/") + rest[|x + "/"|..];
    }
  }

  lemma PodmanTail(tail: string)
    requires tail == "podman/podman.sock" || tail == "podman" || "podman/" <= tail
    ensures Under(tail, "podman")
  {
    assert "podman" + "/" == "podman/";
    assert tail != "podman" ==> tail[..7] == "podman/";
  }

  lemma UnderUserNamesAUid(rest: string)
    requires UnderUser(rest).Some?
    ensures exists uid :: IsUid(uid) && Under(rest, uid + "/podman")
  {
    hide IndexOf, AllDigits, Under;
    var i := IndexOf(rest, '/').value;
    var (uid, tail) := (rest[..i], rest[i + 1..]);
    PodmanTail(tail);
    UnderBelow(uid + "/", tail, "podman");
    assert rest == uid + "/" + tail;
    assert uid + "/" + "podman" == uid + "/podman";
    assert IsUid(uid) && Under(rest, uid + "/podman");
  }

  lemma UidIsUnderUser(rest: string, uid: string)
    requires IsUid(uid) && Under(rest, uid + "/podman")
    ensures UnderUser(rest).Some?
  {
    hide IndexOf, AllDigits;
    UidHasNoSlash(uid);
    var tail := if rest == uid + "/podman" then "podman" else "podman/" + rest[|uid| + 8..];
    assert rest == uid + ['/'] + tail;
    IndexOfFirst(uid, '/', tail);
    assert rest[..|uid|] == uid && rest[|uid| + 1..] == tail;
    assert "podman/" <= "podman/" + rest[|rest|..];
  }

  lemma UnderUserIff(rest: string)
    ensures UnderUser(rest).Some? <==> exists uid :: IsUid(uid) && Under(rest, uid + "/podman")
  {
    hide UnderUser, IsUid, Under;
    if UnderUser(rest).Some? {
      UnderUserNamesAUid(rest);
    }
    if uid :| IsUid(uid) && Under(rest, uid + "/podman") {
      UidIsUnderUser(rest, uid);
    }
  }

  /** The rootless test is: at or below `podman` in some user's runtime directory. */
  lemma RootlessIff(path: string)
    ensures RootlessPodmanPath(path).Some? <==>
            exists uid :: IsUid(uid) && (Under(path, Rooted(["run", "user", uid, "podman"])) || Under(path, Rooted(["var", "run", "user", uid, "podman"])))
  {
    hide UnderUser, Rooted, IsUid, Under;
    var (run, varRun) := ("/run/user/", "/var/run/user/");
    if RootlessPodmanPath(path).Some? {
      var base := if run <= path then run else varRun;
      var rest := path[|base|..];
      assert path == base + rest;
      UnderUserIff(rest);
      var uid :| IsUid(uid) && Under(rest, uid + "/podman");
      RootedUser(uid);
      UnderBelow(base, rest, uid + "/podman");
    }
    if uid :| IsUid(uid) && (Under(path, Rooted(["run", "user", uid, "podman"])) || Under(path, Rooted(["var", "run", "user", uid, "podman"]))) {
      RootedUser(uid);
      var x := uid + "/podman";
      if Under(path, run + x) {
        UnderStarts(path, run, x);
        UnderBelow(run, path[|run|..], x);
        UnderUserIff(path[|run|..]);
      } else {
        UnderStarts(path, varRun, x);
        UnderBelow(varRun, path[|varRun|..], x);
        UnderUserIff(path[|varRun|..]);
        assert path[1] == 'v';
        assert !(run <= path);
      }
    }
  }

  lemma UnderStarts(path: string, base: string, x: string)
    requires Under(path, base + x)
    ensures base <= path && path == base + path[|base|..]
  {
    assert base + x <= path;
    assert base <= base + x;
  }

  lemma ReasonIsSensitive(path: string, readOnly: bool)
    requires SensitiveBindReason(path, readOnly).Some?
    ensures Sensitive(path)
  {
    hide RootlessPodmanPath, IsUid, Under, Rooted;
    if path != "/" && path !in SENSITIVE_BIND_EXACT {
      if RootlessPodmanPath(path).Some? {
        RootlessIff(path);
        var uid :| IsUid(uid) && (Under(path, Rooted(["run", "user", uid, "podman"])) || Under(path, Rooted(["var", "run", "user", uid, "podman"])));
        var prefix := if Under(path, Rooted(["run", "user", uid, "podman"])) then Rooted(["run", "user", uid, "podman"]) else Rooted(["var", "run", "user", uid, "podman"]);
        assert Dangerous(prefix) && Under(path, prefix);
      } else {
        var prefix := FirstListed(path, SENSITIVE_BIND_PREFIXES).value;
        assert Dangerous(prefix) && Under(path, prefix);
      }
    }
  }

  lemma RootlessHasAReason(path: string, readOnly: bool, uid: string)
    requires IsUid(uid) && (Under(path, Rooted(["run", "user", uid, "podman"])) || Under(path, Rooted(["var", "run", "user", uid, "podman"])))
    ensures SensitiveBindReason(path, readOnly).Some?
  {
    hide RootlessPodmanPath, IsUid, Under, Rooted, FirstListed;
    RootlessIff(path);
    assert RootlessPodmanPath(path).Some?;
    assert RootlessPodmanPath(path).value.RootlessSocket? || RootlessPodmanPath(path).value.RootlessDirectory?;
  }

  lemma DangerHasAReason(path: string, readOnly: bool, prefix: string)
    requires Dangerous(prefix) && Under(path, prefix)
    ensures SensitiveBindReason(path, readOnly).Some?
  {
    hide RootlessPodmanPath, IsUid, Under, Rooted;
    if prefix in SENSITIVE_BIND_PREFIXES {
      ListedIsFound(path, prefix, SENSITIVE_BIND_PREFIXES);
    } else {
      hide SensitiveBindReason;
      var uid :| IsUid(uid) && (prefix == Rooted(["run", "user", uid, "podman"]) || prefix == Rooted(["var", "run", "user", uid, "podman"]));
      RootlessHasAReason(path, readOnly, uid);
    }
  }

  lemma ListedIsFound(path: string, prefix: string, prefixes: seq<string>)
    requires prefix in prefixes && Under(path, prefix)
    ensures FirstListed(path, prefixes).Some?
  {
    var i :| 0 <= i < |prefixes| && prefixes[i] == prefix;
  }

  /** The audit gives a reason exactly for the sensitive paths. */
  lemma ReasonIffSensitive(path: string, readOnly: bool)
    ensures SensitiveBindReason(path, readOnly).Some? <==> Sensitive(path)
  {
    if SensitiveBindReason(path, readOnly).Some? {
      ReasonIsSensitive(path, readOnly);
    }
    if Sensitive(path) && path != "/" && path !in SENSITIVE_BIND_EXACT {
      hide SensitiveBindReason, Dangerous, Under;
      var prefix :| Dangerous(prefix) && Under(path, prefix);
      DangerHasAReason(path, readOnly, prefix);
    }
  }

  // ----- the spellings of one source -----

  function TrimEndSlashes(s: string): (r: string)
    ensures r <= s
    ensures r != [] ==> r[|r| - 1] != '/'
  {
    if s != [] && s[|s| - 1] == '/' then TrimEndSlashes(s[..|s| - 1]) else s
  }

  function TrimStartSlashes(s: string): (r: string)
    ensures r != [] ==> r[0] != '/'
  {
    if s != [] && s[0] == '/' then TrimStartSlashes(s[1..]) else s
  }

  /** `normalize_slashes` */
  function NormalizeSlashes(source: string): string {
    var stripped := TrimStartSlashes(TrimEndSlashes(source));
    if stripped == "" || stripped == "." then "/" else "/" + stripped
  }

  predicate AllSlashes(s: string) {
    forall i :: 0 <= i < |s| ==> s[i] == '/'
  }

  lemma {:induction false} EndSlashesGo(s: string, slashes: string)
    requires AllSlashes(slashes)
    ensures TrimEndSlashes(s + slashes) == TrimEndSlashes(s)
  {
    if slashes == [] {
      assert s + slashes == s;
    } else {
      assert (s + slashes)[..|s + slashes| - 1] == s + slashes[..|slashes| - 1];
      EndSlashesGo(s, slashes[..|slashes| - 1]);
    }
  }

  lemma {:induction false} StartSlashesGo(slashes: string, s: string)
    requires AllSlashes(slashes)
    ensures TrimStartSlashes(slashes + s) == TrimStartSlashes(s)
  {
    if slashes == [] {
      assert slashes + s == s;
    } else {
      assert (slashes + s)[1..] == slashes[1..] + s;
      StartSlashesGo(slashes[1..], s);
    }
  }

  /** Slashes at both ends come to one in front; nothing, or a dot, between them is the
      root. */
  lemma SlashesAreFolded(front: string, core: string, back: string)
    requires AllSlashes(front) && AllSlashes(back) && (core != "" ==> core[0] != '/' && core[|core| - 1] != '/')
    ensures NormalizeSlashes(front + core + back) == if core == "" || core == "." then "/" else "/" + core
  {
    EndSlashesGo(front + core, back);
    if core == "" {
      assert front + core == "" + front;
      EndSlashesGo("", front);
    } else {
      assert (front + core)[|front + core| - 1] == core[|core| - 1];
      StartSlashesGo(front, core);
    }
  }

  /** The pieces that say something: no empty ones, no `.`. */
  function Telling(pieces: seq<string>): seq<string> {
    if pieces == [] then []
    else
      var last := pieces[|pieces| - 1];
      Telling(pieces[..|pieces| - 1]) + if last == "" || last == "." then [] else [last]
  }

  lemma {:induction false} TellingParts(a: seq<string>, b: seq<string>)
    ensures Telling(a + b) == Telling(a) + Telling(b)
  {
    if b == [] {
      assert a + b == a;
    } else {
      assert (a + b)[..|a + b| - 1] == a + b[..|b| - 1];
      TellingParts(a, b[..|b| - 1]);
    }
  }

  lemma TellingOne(piece: string)
    ensures Telling([piece]) == if piece == "" || piece == "." then [] else [piece]
  {
    assert [piece][..0] == [];
  }

  lemma {:induction false} FoldOfTelling(pieces: seq<string>)
    ensures Fold(Telling(pieces)) == Fold(pieces)
    ensures ".." in Telling(pieces) <==> ".." in pieces
  {
    if pieces != [] {
      var (front, last) := (pieces[..|pieces| - 1], pieces[|pieces| - 1]);
      FoldOfTelling(front);
      assert pieces == front + [last];
      if last != "" && last != "." {
        assert Telling(pieces)[..|Telling(pieces)| - 1] == Telling(front);
      } else {
        assert Telling(pieces) == Telling(front);
      }
    }
  }

  /** Splitting at a slash splits the pieces. */
  lemma {:induction false} SplitParts(a: string, b: string)
    ensures SplitOn(a + "/" + b, '/') == SplitOn(a, '/') + SplitOn(b, '/')
    decreases |a|
  {
    hide SplitOn, IndexOf;
    if '/' !in a {
      SplitOnJoin(a, '/', b);
      NoSeparatorNoSplit(a, '/');
      assert a + ['/'] + b == a + "/" + b;
    } else {
      var i := IndexOf(a, '/').value;
      var (x, y) := (a[..i], a[i + 1..]);
      SplitParts(y, b);
      assert a == x + ['/'] + y;
      assert a + "/" + b == x + ['/'] + (y + "/" + b);
      SplitOnJoin(x, '/', y);
      SplitOnJoin(x, '/', y + "/" + b);
      assert [x] + SplitOn(y, '/') + SplitOn(b, '/') == [x] + (SplitOn(y, '/') + SplitOn(b, '/'));
    }
  }

  function Tells(path: string): seq<string> {
    Telling(SplitOn(path, '/'))
  }

  lemma TellsParts(a: string, b: string)
    ensures Tells(a + "/" + b) == Tells(a) + Tells(b)
  {
    SplitParts(a, b);
    TellingParts(SplitOn(a, '/'), SplitOn(b, '/'));
  }

  lemma TellsNothing()
    ensures Tells("") == [] && Tells(".") == [] && Tells("/") == []
  {
    hide Telling, SplitOn;
    assert SplitOn("", '/') == [""] by { EmptySplit(); }
    assert SplitOn(".", '/') == ["."] by { assert IndexOf(".", '/').None?; NoSeparatorNoSplit(".", '/'); }
    TellingOne("");
    TellingOne(".");
    TellsParts("", "");
    assert "" + "/" + "" == "/";
  }

  lemma {:induction false} TrimmedEndTells(s: string)
    ensures Tells(TrimEndSlashes(s)) == Tells(s)
  {
    hide Tells;
    if s != [] && s[|s| - 1] == '/' {
      var front := s[..|s| - 1];
      TrimmedEndTells(front);
      TellsParts(front, "");
      TellsNothing();
      assert front + "/" + "" == s;
    }
  }

  lemma {:induction false} TrimmedStartTells(s: string)
    ensures Tells(TrimStartSlashes(s)) == Tells(s)
  {
    hide Tells;
    if s != [] && s[0] == '/' {
      TrimmedStartTells(s[1..]);
      TellsParts("", s[1..]);
      TellsNothing();
      assert "" + "/" + s[1..] == s;
    }
  }

  /** The spelling with its slashes folded says what the source says. */
  lemma WrittenTells(source: string)
    ensures Tells(NormalizeSlashes(source)) == Tells(source)
  {
    hide Tells, TrimEndSlashes, TrimStartSlashes;
    TrimmedEndTells(source);
    TrimmedStartTells(TrimEndSlashes(source));
    TellsNothing();
    var stripped := TrimStartSlashes(TrimEndSlashes(source));
    TellsParts("", stripped);
    assert "" + "/" + stripped == "/" + stripped;
  }

  /** Both spellings fold to the same path. */
  lemma WrittenFoldsAlike(source: string)
    ensures NormalizeHostPath(NormalizeSlashes(source)) == NormalizeHostPath(source)
  {
    hide NormalizeSlashes, SplitOn, Telling, Fold;
    WrittenTells(source);
    FoldOfTelling(SplitOn(source, '/'));
    FoldOfTelling(SplitOn(NormalizeSlashes(source), '/'));
  }

  predicate HasParentComponent(source: string) {
    ".." in SplitOn(source, '/')
  }

  lemma {:induction false} TellingAreNames(pieces: seq<string>)
    requires ".." !in pieces && forall i :: 0 <= i < |pieces| ==> '/' !in pieces[i]
    ensures AreNames(Telling(pieces))
  {
    if pieces != [] {
      assert pieces[|pieces| - 1] in pieces;
      TellingAreNames(pieces[..|pieces| - 1]);
    }
  }

  /** Without `..`, folding only drops what says nothing. */
  lemma FoldedWithoutParents(source: string)
    requires !HasParentComponent(source)
    ensures NormalizeHostPath(source) == Rooted(Tells(source)) && AreNames(Tells(source))
  {
    hide SplitOn, Telling, Fold, Rooted;
    var pieces := SplitOn(source, '/');
    PiecesHaveNoSlash(source);
    TellingAreNames(pieces);
    FoldOfTelling(pieces);
    FoldOfNames(Telling(pieces));
  }

  /** A path already in its shortest spelling: the root's own, or a name after it. */
  predicate IsShort(path: string) {
    |path| >= 2 && path[0] == '/' && path[1] != '/' && path[1] != '.' && path[|path| - 1] != '/'
  }

  lemma ListsAreShort()
    ensures forall i :: 0 <= i < |SENSITIVE_BIND_EXACT| ==> IsShort(SENSITIVE_BIND_EXACT[i])
    ensures forall i :: 0 <= i < |SENSITIVE_BIND_PREFIXES| ==> IsShort(SENSITIVE_BIND_PREFIXES[i])
  {}

  lemma DangerIsShort(prefix: string)
    requires Dangerous(prefix)
    ensures IsShort(prefix)
  {
    hide IsUid, Rooted;
    if prefix in SENSITIVE_BIND_PREFIXES {
      var i :| 0 <= i < |SENSITIVE_BIND_PREFIXES| && SENSITIVE_BIND_PREFIXES[i] == prefix;
      ListsAreShort();
    } else {
      var uid :| IsUid(uid) && (prefix == Rooted(["run", "user", uid, "podman"]) || prefix == Rooted(["var", "run", "user", uid, "podman"]));
      RootedUser(uid);
    }
  }

  lemma {:induction false} TrimmedEndKeeps(s: string, front: string)
    requires front <= s && front != [] && front[|front| - 1] != '/'
    ensures front <= TrimEndSlashes(s)
  {
    if s[|s| - 1] == '/' {
      assert |front| < |s|;
      TrimmedEndKeeps(s[..|s| - 1], front);
    }
  }

  lemma OneSlashInFront(e: string)
    requires |e| >= 2 && e[0] == '/' && e[1] != '/' && e[1] != '.'
    ensures TrimStartSlashes(e) == e[1..] && e[1..] != "." && "/" + e[1..] == e
  {
    assert e[1..][0] == e[1];
    assert TrimStartSlashes(e[1..]) == e[1..];
  }

  /** At or below a short path, slash folding only trims the end. */
  lemma WrittenOfShort(source: string, prefix: string)
    requires IsShort(prefix) && Under(source, prefix)
    ensures NormalizeSlashes(source) == TrimEndSlashes(source) && Under(TrimEndSlashes(source), prefix)
    ensures source == prefix ==> NormalizeSlashes(source) == prefix
  {
    TrimmedEndKeeps(source, prefix);
    var e := TrimEndSlashes(source);
    assert e[0] == '/' && e[1] == prefix[1];
    OneSlashInFront(e);
    hide TrimStartSlashes, TrimEndSlashes;
    if |e| > |prefix| {
      assert source[|prefix|] == (prefix + "/")[|prefix|] == '/';
      assert e == prefix + "/" + e[|prefix| + 1..];
    }
  }

  /** A source that is sensitive as it stands is sensitive as it is written down. */
  lemma RawIsWritten(source: string)
    requires Sensitive(source)
    ensures Sensitive(NormalizeSlashes(source))
  {
    hide Dangerous, Under, IsShort;
    if source == "/" {
      assert TrimEndSlashes("/") == "" by { assert "/"[..0] == ""; }
    } else if source in SENSITIVE_BIND_EXACT {
      ListsAreShort();
      var i :| 0 <= i < |SENSITIVE_BIND_EXACT| && SENSITIVE_BIND_EXACT[i] == source;
      UnderItself(source);
      WrittenOfShort(source, source);
    } else {
      var prefix :| Dangerous(prefix) && Under(source, prefix);
      DangerIsShort(prefix);
      WrittenOfShort(source, prefix);
    }
  }

  lemma UnderItself(path: string)
    ensures Under(path, path)
  {}

  lemma OneNamePaths()
    ensures "/proc" == Rooted(["proc"]) && "/sys" == Rooted(["sys"]) && "/dev" == Rooted(["dev"])
    ensures "/etc" == Rooted(["etc"]) && "/boot" == Rooted(["boot"]) && "/root" == Rooted(["root"])
  {
    hide Rooted;
    RootedOfFour("proc", "", "", "");
    RootedOfFour("sys", "", "", "");
    RootedOfFour("dev", "", "", "");
    RootedOfFour("etc", "", "", "");
    RootedOfFour("boot", "", "", "");
    RootedOfFour("root", "", "", "");
  }

  lemma TwoNamePaths()
    ensures "/run/podman" == Rooted(["run", "podman"]) && "/run/docker" == Rooted(["run", "docker"])
    ensures "/run/docker.sock" == Rooted(["run", "docker.sock"])
  {
    hide Rooted;
    RootedOfFour("run", "podman", "", "");
    RootedOfFour("run", "docker", "", "");
    RootedOfFour("run", "docker.sock", "", "");
  }

  lemma LongerPaths()
    ensures "/var/run/podman" == Rooted(["var", "run", "podman"]) && "/var/run/docker" == Rooted(["var", "run", "docker"])
    ensures "/var/run/docker.sock" == Rooted(["var", "run", "docker.sock"])
  {
    hide Rooted;
    RootedOfFour("var", "run", "podman", "");
    RootedOfFour("var", "run", "docker", "");
    RootedOfFour("var", "run", "docker.sock", "");
  }

  lemma SocketPaths()
    ensures "/run/podman/podman.sock" == Rooted(["run", "podman", "podman.sock"])
    ensures "/var/run/podman/podman.sock" == Rooted(["var", "run", "podman", "podman.sock"])
  {
    hide Rooted;
    RootedOfFour("var", "run", "podman", "podman.sock");
    RootedOfFour("run", "podman", "podman.sock", "");
  }

  /** The names a listed path is made of. */
  ghost predicate IsRooted(path: string) {
    exists names :: AreNames(names) && names != [] && path == Rooted(names)
  }

  lemma NamesMakeRooted(names: seq<string>)
    requires AreNames(names) && names != []
    ensures IsRooted(Rooted(names))
  {}

  lemma ListsAreRooted(path: string)
    requires path in SENSITIVE_BIND_EXACT || path in SENSITIVE_BIND_PREFIXES
    ensures IsRooted(path)
  {
    hide Rooted, IsRooted;
    if |path| <= 5 {
      OneNamePaths();
      NamesMakeRooted(["proc"]);
      NamesMakeRooted(["sys"]);
      NamesMakeRooted(["dev"]);
      NamesMakeRooted(["etc"]);
      NamesMakeRooted(["boot"]);
      NamesMakeRooted(["root"]);
    } else if path in ["/run/podman", "/run/docker", "/run/docker.sock"] {
      TwoNamePaths();
      NamesMakeRooted(["run", "podman"]);
      NamesMakeRooted(["run", "docker"]);
      NamesMakeRooted(["run", "docker.sock"]);
    } else {
      LongerPaths();
      SocketPaths();
      NamesMakeRooted(["var", "run", "podman"]);
      NamesMakeRooted(["var", "run", "docker"]);
      NamesMakeRooted(["var", "run", "docker.sock"]);
      NamesMakeRooted(["var", "run", "podman", "podman.sock"]);
      NamesMakeRooted(["run", "podman", "podman.sock"]);
    }
  }

  lemma UidIsName(uid: string)
    requires IsUid(uid)
    ensures IsName(uid)
  {
    UidHasNoSlash(uid);
    assert IsDigit(uid[0]);
  }

  lemma DangerIsRooted(prefix: string)
    requires Dangerous(prefix)
    ensures IsRooted(prefix)
  {
    hide IsUid, Rooted;
    if prefix in SENSITIVE_BIND_PREFIXES {
      ListsAreRooted(prefix);
    } else {
      var uid :| IsUid(uid) && (prefix == Rooted(["run", "user", uid, "podman"]) || prefix == Rooted(["var", "run", "user", uid, "podman"]));
      UidIsName(uid);
      NamesMakeRooted(["run", "user", uid, "podman"]);
      NamesMakeRooted(["var", "run", "user", uid, "podman"]);
    }
  }

  lemma RootedParts(a: seq<string>, b: seq<string>)
    requires a != []
    ensures Under(Rooted(a + b), Rooted(a))
  {
    if b == [] {
      assert a + b == a;
    } else {
      JoinParts(a, b);
      assert Rooted(a + b) == Rooted(a) + "/" + Join(b, "/");
    }
  }

  lemma {:induction false} JoinParts(a: seq<string>, b: seq<string>)
    requires a != [] && b != []
    ensures Join(a + b, "/") == Join(a, "/") + "/" + Join(b, "/")
  {
    assert (a + b)[1..] == a[1..] + b;
    if |a| > 1 {
      JoinParts(a[1..], b);
      assert a[0] + "/" + (Join(a[1..], "/") + "/" + Join(b, "/")) == a[0] + "/" + Join(a[1..], "/") + "/" + Join(b, "/");
    } else {
      assert a[1..] + b == b;
    }
  }

  lemma TellsOfRooted(names: seq<string>)
    requires AreNames(names)
    ensures Tells(Rooted(names)) == names
  {
    hide SplitOn, Rooted;
    SplitRooted(names);
    TellingOfNames(names);
    TellingOne("");
    TellingParts([""], if names == [] then [""] else names);
    assert [] + names == names;
  }

  lemma {:induction false} TellingOfNames(names: seq<string>)
    requires AreNames(names)
    ensures Telling(names) == names
  {
    if names != [] {
      TellingOfNames(names[..|names| - 1]);
      assert IsName(names[|names| - 1]);
      assert names[..|names| - 1] + [names[|names| - 1]] == names;
    }
  }

  lemma TellsBelow(path: string, names: seq<string>)
    requires AreNames(names) && Under(path, Rooted(names))
    ensures exists more :: Tells(path) == names + more
  {
    hide Tells, Rooted;
    TellsOfRooted(names);
    if path == Rooted(names) {
      assert Tells(path) == names + [];
    } else {
      var tail := path[|Rooted(names)| + 1..];
      assert path == Rooted(names) + "/" + tail;
      TellsParts(Rooted(names), tail);
    }
  }

  /** Without `..`, a source that is sensitive as written is sensitive folded too. */
  lemma WrittenIsFolded(source: string)
    requires !HasParentComponent(source) && Sensitive(NormalizeSlashes(source))
    ensures Sensitive(NormalizeHostPath(source))
  {
    hide Dangerous, Under, Rooted, Tells, NormalizeSlashes, NormalizeHostPath, HasParentComponent, IsRooted;
    var written := NormalizeSlashes(source);
    WrittenTells(source);
    FoldedWithoutParents(source);
    if written == "/" {
      TellsNothing();
      assert Rooted([]) == "/" by { RootedNothing(); }
    } else if written in SENSITIVE_BIND_EXACT {
      ListsAreRooted(written);
      var names := NamesOf(written);
    } else {
      var prefix :| Dangerous(prefix) && Under(written, prefix);
      DangerIsRooted(prefix);
      var names := NamesOf(prefix);
      TellsBelow(written, names);
      var more :| Tells(written) == names + more;
      RootedParts(names, more);
    }
  }

  lemma RootedNothing()
    ensures Rooted([]) == "/"
  {
    EmptyJoin();
  }

  lemma NamesOf(path: string) returns (names: seq<string>)
    requires IsRooted(path)
    ensures AreNames(names) && names != [] && path == Rooted(names) && Tells(path) == names
  {
    names :| AreNames(names) && names != [] && path == Rooted(names);
    TellsOfRooted(names);
  }

  // ----- the check -----

  datatype Finding = SensitiveBind(reason: Reason) | CannotTell(source: string)

  /** What one absolute bind source comes to. */
  function Judge(source: string, readOnly: bool): Option<Finding> {
    var written := SensitiveBindReason(NormalizeSlashes(source), readOnly);
    var folded := SensitiveBindReason(NormalizeHostPath(source), readOnly);
    if written.Some? then Some(SensitiveBind(written.value))
    else if folded.Some? then Some(SensitiveBind(folded.value))
    else if HasParentComponent(source) then Some(CannotTell(source))
    else None
  }

  /** A source is reported exactly when a spelling of it is sensitive or it contains
      `..`: as it stands, with its slashes folded, or folded all the way. Without
      `..` the folded spelling alone decides. */
  lemma ReportedIff(source: string, readOnly: bool)
    ensures Judge(source, readOnly).Some? <==>
            Sensitive(source) || Sensitive(NormalizeSlashes(source)) || Sensitive(NormalizeHostPath(source)) || HasParentComponent(source)
    ensures !HasParentComponent(source) ==> (Judge(source, readOnly).Some? <==> Sensitive(NormalizeHostPath(source)))
    ensures Sensitive(NormalizeSlashes(source)) ==>
              Judge(source, readOnly).Some? && Judge(source, readOnly).value.SensitiveBind?
              && Judge(source, readOnly).value.reason.path == NormalizeSlashes(source)
    ensures !Sensitive(NormalizeSlashes(source)) && Sensitive(NormalizeHostPath(source)) ==>
              Judge(source, readOnly).Some? && Judge(source, readOnly).value.SensitiveBind?
              && Judge(source, readOnly).value.reason.path == NormalizeHostPath(source)
    ensures !Sensitive(NormalizeSlashes(source)) && !Sensitive(NormalizeHostPath(source)) && HasParentComponent(source) ==>
              Judge(source, readOnly) == Some(CannotTell(source))
    ensures Judge(source, readOnly).Some? && Judge(source, readOnly).value.SensitiveBind? ==>
              Judge(source, readOnly).value.reason.readOnly == readOnly
  {
    hide Sensitive, NormalizeSlashes, NormalizeHostPath, HasParentComponent, RootlessPodmanPath, FirstListed;
    ReasonIffSensitive(NormalizeSlashes(source), readOnly);
    ReasonIffSensitive(NormalizeHostPath(source), readOnly);
    if Sensitive(source) {
      RawIsWritten(source);
    }
    if Sensitive(NormalizeSlashes(source)) && !HasParentComponent(source) {
      WrittenIsFolded(source);
    }
  }

  predicate IsAsciiLetter(c: char) {
    'a' <= c <= 'z' || 'A' <= c <= 'Z'
  }

  predicate HasWindowsDrivePrefix(s: string) {
    |s| >= 2 && IsAsciiLetter(s[0]) && s[1] == ':'
  }

  datatype Spec = Spec(source: string, target: string, options: string)

  /** `split_short_volume_spec`: the first two colons separate, except the one of a
      drive letter. */
  function SplitShortVolumeSpec(s: string): Spec {
    var from := if HasWindowsDrivePrefix(s) then 2 else 0;
    match IndexOf(s[from..], ':')
    case None => Spec(s, s, "")
    case Some(i) =>
      var a := from + i;
      match IndexOf(s[a + 1..], ':')
      case None => Spec(s[..a], s[a + 1..], "")
      case Some(j) => Spec(s[..a], s[a + 1..a + 1 + j], s[a + 2 + j..])
  }

  /** A spec of a source, a target and options is cut back into them. */
  lemma SpecReadsBack(source: string, target: string, options: string)
    requires ':' !in source && ':' !in target
    requires |source| != 1 || !IsAsciiLetter(source[0])
    ensures SplitShortVolumeSpec(source + ":" + target) == Spec(source, target, "")
    ensures SplitShortVolumeSpec(source + ":" + target + ":" + options) == Spec(source, target, options)
  {
    hide IndexOf;
    var short := source + [':'] + target;
    var long := source + [':'] + (target + [':'] + options);
    assert short == source + ":" + target && long == source + ":" + target + ":" + options;
    NoDrive(source, target);
    NoDrive(source, target + [':'] + options);
    assert short[0..] == short && long[0..] == long;
    IndexOfFirst(source, ':', target);
    IndexOfFirst(source, ':', target + [':'] + options);
    IndexOfFirst(target, ':', options);
    assert short[|source| + 1..] == target && long[|source| + 1..] == target + [':'] + options;
    assert short[..|source|] == source && long[..|source|] == source;
    assert long[|source| + 1..|source| + 1 + |target|] == target;
    assert long[|source| + 2 + |target|..] == options;
  }

  lemma NoDrive(source: string, rest: string)
    requires ':' !in source && (|source| != 1 || !IsAsciiLetter(source[0]))
    ensures !HasWindowsDrivePrefix(source + [':'] + rest)
  {
    var s := source + [':'] + rest;
    if |source| >= 2 {
      assert s[1] == source[1] && source[1] in source;
    }
  }

  datatype Mount =
    | Short(spec: string)
    | Long(isBind: bool, source: Option<string>, readOnly: Option<bool>)

  predicate SaysReadOnly(options: string) {
    exists i :: 0 <= i < |SplitOn(options, ',')| && Trim(SplitOn(options, ',')[i]) == "ro"
  }

  /** `bind_source` */
  function BindSource(m: Mount): Option<(string, bool)> {
    match m
    case Short(text) =>
      var spec := SplitShortVolumeSpec(text);
      if IsAbsolute(spec.source) then Some((spec.source, SaysReadOnly(spec.options))) else None
    case Long(isBind, source, readOnly) =>
      if isBind && source.Some? && IsAbsolute(source.value) then Some((source.value, readOnly == Some(true))) else None
  }

  /** A short bind of an absolute path is read-only exactly when `ro` is one of its
      options; any other short form, and a long form that is no bind of an absolute path,
      is no bind. */
  lemma BindsAreRead(source: string, target: string, options: seq<string>, readOnly: Option<bool>)
    requires ':' !in source && ':' !in target && (|source| != 1 || !IsAsciiLetter(source[0]))
    requires options != [] && forall i :: 0 <= i < |options| ==> ',' !in options[i] && IsTrimmed(options[i])
    ensures BindSource(Short(source + ":" + target)) == if IsAbsolute(source) then Some((source, false)) else None
    ensures BindSource(Short(source + ":" + target + ":" + Join(options, [',']))) == if IsAbsolute(source) then Some((source, "ro" in options)) else None
    ensures BindSource(Long(true, Some(source), readOnly)) == if IsAbsolute(source) then Some((source, readOnly == Some(true))) else None
    ensures BindSource(Long(false, Some(source), readOnly)) == None && BindSource(Long(true, None, readOnly)) == None
  {
    hide SplitShortVolumeSpec, SplitOn, Join, Trim;
    SpecReadsBack(source, target, Join(options, [',']));
    SplitJoined(options, ',');
    forall i | 0 <= i < |options| ensures Trim(options[i]) == options[i] {
      TrimIsTrimmed(options[i]);
    }
    assert !SaysReadOnly("") by { NoOptions(); }
  }

  function Findings(mounts: seq<Mount>): seq<Finding> {
    if mounts == [] then []
    else
      var last := BindSource(mounts[|mounts| - 1]);
      var found := if last.None? then None else Judge(last.value.0, last.value.1);
      Findings(mounts[..|mounts| - 1]) + if found.None? then [] else [found.value]
  }

  /** A short volume without a colon is an anonymous volume, mounted from nowhere on
      the host. The check leaves it alone exactly when it is not an absolute path, or is
      one it would not report as the source of a bind. */
  lemma AnonymousVolumesAreJudged(s: string)
    requires ':' !in s
    ensures BindSource(Short(s)) == if IsAbsolute(s) then Some((s, false)) else None
    ensures Findings([Short(s)]) == [] <==>
            !IsAbsolute(s)
            || !(Sensitive(s) || Sensitive(NormalizeSlashes(s)) || Sensitive(NormalizeHostPath(s)) || HasParentComponent(s))
  {
    hide Judge, Sensitive, NormalizeSlashes, NormalizeHostPath, HasParentComponent;
    assert IndexOf(s, ':').None?;
    assert s[0..] == s && [Short(s)][..0] == [];
    assert !SaysReadOnly("") by { NoOptions(); }
    ReportedIff(s, false);
  }

  lemma NoOptions()
    ensures !SaysReadOnly("")
  {}

  /** So `/etc` alone, an anonymous volume, is reported. */
  lemma EtcAloneIsReported()
    ensures Findings([Short("/etc")]) != []
  {
    assert Sensitive("/etc") by {
      assert SENSITIVE_BIND_PREFIXES[3] == "/etc";
      assert Dangerous("/etc") && Under("/etc", "/etc");
    }
    hide Sensitive;
    AnonymousVolumesAreJudged("/etc");
  }

  /** `normalize_lexically` keeps the `..` of `/..`, `normalize_host_path` drops it. */
  lemma ParentOfTheRoot()
    ensures NormalizeLexically("/..") == "/.." && NormalizeHostPath("/..") == "/"
  {
    hide SplitOn, Rooted, NormalizeLexically, NormalizeHostPath;
    assert "/.." == "" + ['/'] + "..";
    SplitOnJoin("", '/', "..");
    NoSeparatorNoSplit("..", '/');
    var path := "/..";
    var pieces := SplitOn(path, '/');
    assert pieces == ["", ".."];
    ParentClimbs();
    LexicalIsFoldedUnderUps(path, pieces);
    assert Ups(Climb(pieces)) + Fold(pieces) == [".."];
    RootedParent();
    FoldedPieces(path, pieces);
  }

  lemma FoldedPieces(source: string, pieces: seq<string>)
    requires pieces == SplitOn(source, '/')
    ensures NormalizeHostPath(source) == Rooted(Fold(pieces))
  {}

  lemma ParentClimbs()
    ensures Climb(["", ".."]) == 1 && Fold(["", ".."]) == [] && Ups(1) == [".."]
  {
    assert ["", ".."][..1] == [""] && [""][..0] == [];
  }

  lemma RootedParent()
    ensures Rooted([".."]) == "/.." && Rooted([]) == "/"
  {}

  method NormalizePath(source: string) returns (path: string)
    ensures path == NormalizeHostPath(source)
  {
    hide SplitOn, Rooted;
    var pieces := SplitOn(source, '/');
    var parts: seq<string> := [];
    var i := 0;
    while i < |pieces|
      invariant i <= |pieces| && parts == Fold(pieces[..i])
    {
      assert pieces[..i + 1][..i] == pieces[..i];
      var part := pieces[i];
      if part == "" || part == "." {
      } else if part == ".." {
        if parts != [] {
          parts := parts[..|parts| - 1];
        }
      } else {
        parts := parts + [part];
      }
      i := i + 1;
    }
    assert pieces[..i] == pieces;
    return Rooted(parts);
  }

  method CleanPath(path: string) returns (r: string)
    ensures r == NormalizeLexically(path)
  {
    hide Components;
    var comps := Components(path);
    var out: seq<Component> := [];
    var i := 0;
    while i < |comps|
      invariant i <= |comps| && out == FoldComponents(comps[..i])
    {
      assert comps[..i + 1][..i] == comps[..i];
      match comps[i] {
        case CurDir =>
        case ParentDir =>
          if out != [] && out[|out| - 1].Normal? {
            out := out[..|out| - 1];
          } else {
            out := out + [comps[i]];
          }
        case _ =>
          out := out + [comps[i]];
      }
      i := i + 1;
    }
    assert comps[..i] == comps;
    r := "";
    i := 0;
    while i < |out|
      invariant i <= |out| && r == PathOf(out[..i])
    {
      assert out[..i + 1][..i] == out[..i];
      r := PushComponent(r, out[i]);
      i := i + 1;
    }
    assert out[..i] == out;
  }

  /** One finding at most for each mount. */
  method CheckSensitiveBindMount(mounts: seq<Mount>) returns (out: seq<Finding>)
    ensures out == Findings(mounts) && |out| <= |mounts|
  {
    hide SensitiveBindReason, NormalizeSlashes, NormalizeHostPath, HasParentComponent, BindSource;
    out := [];
    var i := 0;
    while i < |mounts|
      invariant i <= |mounts| && out == Findings(mounts[..i]) && |out| <= i
    {
      assert mounts[..i + 1][..i] == mounts[..i];
      var bind := BindSource(mounts[i]);
      if bind.Some? {
        var (source, readOnly) := bind.value;
        var written := NormalizeSlashes(source);
        var folded := NormalizePath(source);
        var reason := SensitiveBindReason(written, readOnly);
        if reason.None? {
          reason := SensitiveBindReason(folded, readOnly);
        }
        if reason.Some? {
          out := out + [SensitiveBind(reason.value)];
        } else if HasParentComponent(source) {
          out := out + [CannotTell(source)];
        }
      }
      i := i + 1;
    }
    assert mounts[..i] == mounts;
  }
}
