/**
 File references that are stored relative to the file they are saved in: `path_relative_to`,
 `FileReferenceHandler.to_str`/`to_path` and `SupportedSchemeGroup.parse`. Symbolic links are not
 followed.
 */
module FileReferences {
  import opened Wrappers

  /** A path by its components; an absolute path has a non-empty anchor. */
  datatype Path = Path(anchor: string, parts: seq<string>)

  datatype Error = DotDotSegment | DifferentAnchors

  // ----- Components -----

  predicate Component(c: string) {
    c != "" && c != "." && '/' !in c
  }

  /** An absolute path without `.` and `..`. */
  predicate Normal(p: Path) {
    p.anchor != "" && forall c | c in p.parts :: Component(c) && c != ".."
  }

  function Ups(n: nat): seq<string> {
    seq(n, _ => "..")
  }

  function CountUps(parts: seq<string>): nat {
    if parts == [] then 0
    else CountUps(parts[..|parts| - 1]) + if parts[|parts| - 1] == ".." then 1 else 0
  }

  /** `normpath` on the components of an absolute path. */
  function Normalize(parts: seq<string>): seq<string> {
    if parts == [] then []
    else
      var front, c := Normalize(parts[..|parts| - 1]), parts[|parts| - 1];
      if c == "." || c == "" then front
      else if c == ".." then (if front == [] then [] else front[..|front| - 1])
      else front + [c]
  }

  // ----- path_relative_to -----

  /** Walks up from the first `k` components of `relTo` to an ancestor of `org`. */
  function RelativeFrom(org: Path, relTo: Path, k: nat): Result<seq<string>, Error>
    requires k <= |relTo.parts|
  {
    if relTo.anchor == org.anchor && relTo.parts[..k] <= org.parts then
      Success(Ups(|relTo.parts| - k) + org.parts[k..])
    else if k == 0 then Failure(DifferentAnchors)
    else if relTo.parts[k - 1] == ".." then Failure(DotDotSegment)
    else RelativeFrom(org, relTo, k - 1)
  }

  function PathRelativeTo(org: Path, relTo: Path): Result<seq<string>, Error> {
    RelativeFrom(org, relTo, |relTo.parts|)
  }

  method RelativeLoop(org: Path, relTo: Path) returns (r: Result<seq<string>, Error>)
    ensures r == PathRelativeTo(org, relTo)
  {
    var step: nat, k: nat := 0, |relTo.parts|;
    while true
      invariant k + step == |relTo.parts|
      invariant PathRelativeTo(org, relTo) == RelativeFrom(org, relTo, k)
      decreases k
    {
      var path := Path(relTo.anchor, relTo.parts[..k]);
      if path.anchor == org.anchor && path.parts <= org.parts {
        break;
      }
      if k == 0 {
        return Failure(DifferentAnchors);
      }
      if path.parts[k - 1] == ".." {
        return Failure(DotDotSegment);
      }
      step, k := step + 1, k - 1;
    }
    return Success(Ups(step) + org.parts[k..]);
  }

  lemma MaximalPrefix(a: seq<string>, b: seq<string>, k: nat)
    requires k <= |b| && b[..k] <= a && (k == |b| || !(b[..k + 1] <= a))
    ensures k <= |a| && b[..k] == a[..k]
    ensures k == |b| || k == |a| || b[k] != a[k]
  {
    if k < |b| && k < |a| {
      assert b[..k + 1] == b[..k] + [b[k]] && a[..k + 1] == a[..k] + [a[k]];
    }
  }

  lemma {:induction false} CommonPrefix(org: Path, relTo: Path, k: nat) returns (m: nat)
    requires k <= |relTo.parts| && relTo.anchor == org.anchor && forall c | c in relTo.parts :: c != ".."
    requires k == |relTo.parts| || !(relTo.parts[..k + 1] <= org.parts)
    ensures m <= k && m <= |org.parts| && relTo.parts[..m] == org.parts[..m]
    ensures m == |relTo.parts| || m == |org.parts| || relTo.parts[m] != org.parts[m]
    ensures RelativeFrom(org, relTo, k) == Success(Ups(|relTo.parts| - m) + org.parts[m..])
  {
    if relTo.parts[..k] <= org.parts {
      m := k;
      MaximalPrefix(org.parts, relTo.parts, k);
    } else {
      assert relTo.parts[k - 1] in relTo.parts;
      assert k - 1 + 1 == k;
      m := CommonPrefix(org, relTo, k - 1);
    }
  }

  // ----- Any paths -----

  /** The first `k` components of the base are an ancestor of the target, or the target itself. */
  predicate Meets(org: Path, relTo: Path, k: nat)
    requires k <= |relTo.parts|
  {
    relTo.anchor == org.anchor && relTo.parts[..k] <= org.parts
  }

  /** On the way up from the first `k` components to the first `m`, no ancestor and no `..` is met before. */
  ghost predicate GoesUpTo(org: Path, relTo: Path, k: nat, m: nat)
    requires k <= |relTo.parts|
  {
    && m <= k
    && (forall i | m < i <= k :: !Meets(org, relTo, i))
    && (forall j | m <= j < k :: relTo.parts[j] != "..")
  }

  ghost predicate LeadsTo(org: Path, relTo: Path, k: nat, r: Result<seq<string>, Error>)
    requires k <= |relTo.parts|
  {
    match r
    case Success(rel) =>
      exists m: nat | GoesUpTo(org, relTo, k, m) ::
        Meets(org, relTo, m) && rel == Ups(|relTo.parts| - m) + org.parts[m..]
    case Failure(DotDotSegment) =>
      exists m: nat | GoesUpTo(org, relTo, k, m) :: !Meets(org, relTo, m) && m > 0 && relTo.parts[m - 1] == ".."
    case Failure(DifferentAnchors) =>
      GoesUpTo(org, relTo, k, 0) && !Meets(org, relTo, 0)
  }

  lemma GoesUpOneMore(org: Path, relTo: Path, k: nat, m: nat)
    requires 0 < k <= |relTo.parts| && GoesUpTo(org, relTo, k - 1, m)
    requires !Meets(org, relTo, k) && relTo.parts[k - 1] != ".."
    ensures GoesUpTo(org, relTo, k, m)
  {
  }

  lemma LeadsOneMore(org: Path, relTo: Path, k: nat, r: Result<seq<string>, Error>)
    requires 0 < k <= |relTo.parts| && LeadsTo(org, relTo, k - 1, r)
    requires !Meets(org, relTo, k) && relTo.parts[k - 1] != ".."
    ensures LeadsTo(org, relTo, k, r)
  {
    if GoesUpTo(org, relTo, k - 1, 0) {
      GoesUpOneMore(org, relTo, k, 0);
    }
    if r.Success? {
      var m: nat :| GoesUpTo(org, relTo, k - 1, m) && Meets(org, relTo, m)
        && r.value == Ups(|relTo.parts| - m) + org.parts[m..];
      GoesUpOneMore(org, relTo, k, m);
    } else if r.error.DotDotSegment? {
      var m: nat :| GoesUpTo(org, relTo, k - 1, m) && !Meets(org, relTo, m) && m > 0 && relTo.parts[m - 1] == "..";
      GoesUpOneMore(org, relTo, k, m);
    }
  }

  lemma LeadsHere(org: Path, relTo: Path, k: nat)
    requires k <= |relTo.parts|
    ensures Meets(org, relTo, k) ==>
              LeadsTo(org, relTo, k, Success(Ups(|relTo.parts| - k) + org.parts[k..]))
    ensures !Meets(org, relTo, k) && k > 0 && relTo.parts[k - 1] == ".." ==>
              LeadsTo(org, relTo, k, Failure(DotDotSegment))
    ensures !Meets(org, relTo, k) && k == 0 ==> LeadsTo(org, relTo, k, Failure(DifferentAnchors))
  {
    assert GoesUpTo(org, relTo, k, k);
  }

  lemma {:induction false} RelativeFromIs(org: Path, relTo: Path, k: nat)
    requires k <= |relTo.parts|
    ensures LeadsTo(org, relTo, k, RelativeFrom(org, relTo, k))
  {
    var r := RelativeFrom(org, relTo, k);
    if Meets(org, relTo, k) {
      assert r == Success(Ups(|relTo.parts| - k) + org.parts[k..]);
      LeadsHere(org, relTo, k);
    } else if k == 0 || relTo.parts[k - 1] == ".." {
      assert r == Failure(if k == 0 then DifferentAnchors else DotDotSegment);
      LeadsHere(org, relTo, k);
    } else {
      RelativeFromIs(org, relTo, k - 1);
      LeadsOneMore(org, relTo, k, RelativeFrom(org, relTo, k - 1));
      assert r == RelativeFrom(org, relTo, k - 1);
    }
  }

  /**
   Whatever the paths: the result leads up to the nearest common ancestor and down to the target,
   unless a `..` of the base is met on the way up, or there is none.
   */
  lemma RelativeIs(org: Path, relTo: Path)
    ensures LeadsTo(org, relTo, |relTo.parts|, PathRelativeTo(org, relTo))
  {
    RelativeFromIs(org, relTo, |relTo.parts|);
  }

  // ----- Joining and normalizing -----

  lemma {:induction false} NormalizePlain(parts: seq<string>)
    requires forall c | c in parts :: Component(c) && c != ".."
    ensures Normalize(parts) == parts
  {
    if parts != [] {
      var front := parts[..|parts| - 1];
      NormalizePlain(front);
      assert parts[|parts| - 1] in parts;
      assert parts == front + [parts[|parts| - 1]];
    }
  }

  lemma {:induction false} NormalizeUps(base: seq<string>, n: nat)
    requires n <= |base| && Normalize(base) == base
    ensures Normalize(base + Ups(n)) == base[..|base| - n]
  {
    if n == 0 {
      assert base + Ups(0) == base;
    } else {
      assert (base + Ups(n))[..|base| + n - 1] == base + Ups(n - 1);
      NormalizeUps(base, n - 1);
    }
  }

  lemma {:induction false} NormalizeTail(base: seq<string>, tail: seq<string>)
    requires forall c | c in tail :: Component(c) && c != ".."
    ensures Normalize(base + tail) == Normalize(base) + tail
  {
    if tail == [] {
      assert base + tail == base;
    } else {
      var front := tail[..|tail| - 1];
      assert (base + tail)[..|base + tail| - 1] == base + front;
      assert tail[|tail| - 1] in tail;
      NormalizeTail(base, front);
    }
  }

  lemma {:induction false} CountUpsOf(n: nat, tail: seq<string>)
    requires forall c | c in tail :: c != ".."
    ensures CountUps(Ups(n) + tail) == n
  {
    if tail == [] {
      assert Ups(n) + tail == Ups(n);
      if n > 0 {
        assert Ups(n)[..n - 1] == Ups(n - 1);
        CountUpsOf(n - 1, []);
        assert Ups(n - 1) + [] == Ups(n - 1);
      }
    } else {
      var front := tail[..|tail| - 1];
      assert (Ups(n) + tail)[..n + |tail| - 1] == Ups(n) + front;
      assert tail[|tail| - 1] in tail && forall c | c in front :: c in tail;
      CountUpsOf(n, tail[..|tail| - 1]);
    }
  }

  /** A relative path keeps all but as many components of its base as it has `..` steps. */
  lemma {:induction false} KeptPrefix(base: seq<string>, rel: seq<string>)
    requires Normalize(base) == base
    ensures |base| <= CountUps(rel) || base[..|base| - CountUps(rel)] <= Normalize(base + rel)
  {
    if rel == [] {
      assert base + rel == base;
    } else {
      assert (base + rel)[..|base + rel| - 1] == base + rel[..|rel| - 1];
      KeptPrefix(base, rel[..|rel| - 1]);
    }
  }

  lemma TailComponents(p: Path, m: nat)
    requires Normal(p) && m <= |p.parts|
    ensures forall c | c in p.parts[m..] :: Component(c) && c != ".."
  {
    assert forall c | c in p.parts[m..] :: c in p.parts;
  }

  lemma UpThenDown(base: seq<string>, n: nat, tail: seq<string>)
    requires n <= |base| && Normalize(base) == base && forall c | c in tail :: Component(c) && c != ".."
    ensures Normalize(base + (Ups(n) + tail)) == base[..|base| - n] + tail
  {
    var up := base + Ups(n);
    assert up + tail == base + (Ups(n) + tail);
    assert Normalize(up) == base[..|base| - n] by {
      NormalizeUps(base, n);
    }
    assert Normalize(up + tail) == Normalize(up) + tail by {
      NormalizeTail(up, tail);
    }
  }

  /** Joining the relative path to its base and normalizing gives the target. */
  lemma RelativeResolves(org: Path, relTo: Path)
    requires Normal(org) && Normal(relTo) && org.anchor == relTo.anchor
    ensures PathRelativeTo(org, relTo).Success?
    ensures Normalize(relTo.parts + PathRelativeTo(org, relTo).value) == org.parts
  {
    var m := CommonPrefix(org, relTo, |relTo.parts|);
    NormalizePlain(relTo.parts);
    TailComponents(org, m);
    UpThenDown(relTo.parts, |relTo.parts| - m, org.parts[m..]);
    BackDown(org.parts, relTo.parts, m);
  }

  lemma BackDown(org: seq<string>, base: seq<string>, m: nat)
    requires m <= |org| && m <= |base| && base[..m] == org[..m]
    ensures base[..|base| - (|base| - m)] + org[m..] == org
  {
    assert org == org[..m] + org[m..];
  }

  /** No relative path that leads to the target has fewer `..` steps. */
  lemma RelativeUsesFewestUps(org: Path, relTo: Path, other: seq<string>)
    requires Normal(org) && Normal(relTo) && org.anchor == relTo.anchor
    requires Normalize(relTo.parts + other) == org.parts
    ensures PathRelativeTo(org, relTo).Success?
    ensures CountUps(PathRelativeTo(org, relTo).value) <= CountUps(other)
  {
    var m := CommonPrefix(org, relTo, |relTo.parts|);
    TailComponents(org, m);
    CountUpsOf(|relTo.parts| - m, org.parts[m..]);
    NormalizePlain(relTo.parts);
    KeptPrefix(relTo.parts, other);
    var kept := |relTo.parts| - CountUps(other);
    assert forall i | 0 <= i < kept :: relTo.parts[..kept][i] == org.parts[i];
  }

  /** Paths with different anchors are refused, unless a `..` segment is met first. */
  lemma {:induction false} DifferentAnchorsFail(org: Path, relTo: Path, k: nat)
    requires org.anchor != relTo.anchor && k <= |relTo.parts|
    ensures RelativeFrom(org, relTo, k) ==
            Failure(if exists i | 0 <= i < k :: relTo.parts[i] == ".." then DotDotSegment else DifferentAnchors)
  {
    if k > 0 {
      DifferentAnchorsFail(org, relTo, k - 1);
    }
  }

  // ----- Reference texts -----

  datatype Reference = Reference(scheme: string, args: Option<string>, value: string)

  /** `(.*)$`: up to the end, or to a final newline. */
  function RestOfLine(s: string): Option<string> {
    if '\n' !in s then Some(s)
    else if s[|s| - 1] == '\n' && '\n' !in s[..|s| - 1] then Some(s[..|s| - 1])
    else None
  }

  /** `(.*?)\]:(.*)$`, the bracketed arguments taking as little as possible. */
  function MatchArgs(s: string, i: nat): Option<(string, string)>
    requires i <= |s|
    decreases |s| - i
  {
    if i + 1 < |s| && s[i] == ']' && s[i + 1] == ':' && RestOfLine(s[i + 2..]).Some?
    then Some((s[..i], RestOfLine(s[i + 2..]).value))
    else if i == |s| || s[i] == '\n' then None
    else MatchArgs(s, i + 1)
  }

  /** The identifier expression, the scheme taking as few characters as possible but at least one. */
  function MatchIdent(s: string, i: nat): Option<Reference>
    requires i <= |s|
    decreases |s| - i
  {
    if i == |s| then None
    else if i > 0 && s[i] == '[' && MatchArgs(s[i + 1..], 0).Some? then
      var (args, value) := MatchArgs(s[i + 1..], 0).value;
      Some(Reference(s[..i], Some(args), value))
    else if i > 0 && s[i] == ':' && RestOfLine(s[i + 1..]).Some? then
      Some(Reference(s[..i], None, RestOfLine(s[i + 1..]).value))
    else if s[i] == '[' then None
    else MatchIdent(s, i + 1)
  }

  function ParseIdent(ident: string): Option<Reference> {
    MatchIdent(ident, 0)
  }

  function PrintFile(value: string): string {
    "file:" + value
  }

  lemma FileMatch(value: string)
    ensures ParseIdent(PrintFile(value)) ==
            if RestOfLine(value).Some? then Some(Reference("file", None, RestOfLine(value).value))
            else MatchIdent(PrintFile(value), 5)
  {
    var s := PrintFile(value);
    assert s[0] == 'f' && s[1] == 'i' && s[2] == 'l' && s[3] == 'e' && s[4] == ':';
    assert s[5..] == value && s[..4] == "file";
    assert MatchIdent(s, 4) == if RestOfLine(value).Some? then Some(Reference("file", None, RestOfLine(value).value))
                               else MatchIdent(s, 5);
    assert MatchIdent(s, 3) == MatchIdent(s, 4);
    assert MatchIdent(s, 2) == MatchIdent(s, 3);
    assert MatchIdent(s, 1) == MatchIdent(s, 2);
  }

  lemma {:induction false} LaterMatch(s: string, i: nat)
    requires i <= |s| && MatchIdent(s, i).Some?
    ensures |MatchIdent(s, i).value.scheme| >= i
    decreases |s| - i
  {
    if !(i > 0 && s[i] == '[' && MatchArgs(s[i + 1..], 0).Some?)
       && !(i > 0 && s[i] == ':' && RestOfLine(s[i + 1..]).Some?) {
      LaterMatch(s, i + 1);
    }
  }

  /** A printed file reference parses back to itself exactly when its path contains no newline. */
  lemma FileTextRoundTripIff(value: string)
    ensures ParseIdent(PrintFile(value)) == Some(Reference("file", None, value)) <==> '\n' !in value
  {
    FileMatch(value);
    if '\n' in value && RestOfLine(value).None? && ParseIdent(PrintFile(value)).Some? {
      LaterMatch(PrintFile(value), 5);
    }
  }

  /** A final line break is lost. */
  lemma LineBreakExample()
    ensures ParseIdent(PrintFile("a\n")) == Some(Reference("file", None, "a"))
  {
    FileMatch("a\n");
    assert "a\n"[..1] == "a";
  }

  // ----- Which texts are references -----

  /** `value` is the rest of the text, up to a final line break if there is one. */
  predicate RestIs(rest: string, value: string) {
    '\n' !in value && (rest == value || rest == value + "\n")
  }

  /** The text is the reference: a scheme without brackets, arguments in brackets if any, a colon, the value. */
  ghost predicate Reads(s: string, r: Reference) {
    && r.scheme != "" && '[' !in r.scheme
    && match r.args
       case None => exists rest :: s == r.scheme + ":" + rest && RestIs(rest, r.value)
       case Some(args) =>
         '\n' !in args && exists rest :: s == r.scheme + "[" + args + "]:" + rest && RestIs(rest, r.value)
  }

  lemma RestOfLineIff(rest: string, value: string)
    ensures RestOfLine(rest) == Some(value) <==> RestIs(rest, value)
  {
    if '\n' in rest && rest[|rest| - 1] == '\n' {
      assert rest == rest[..|rest| - 1] + "\n";
    }
    if rest == value + "\n" {
      assert rest[|value|] == '\n' && rest[..|value|] == value;
    }
  }

  /** Arguments of `t` from position `i` on, and what follows the colon. */
  ghost predicate ArgsRead(t: string, i: nat, args: string, value: string) {
    i <= |args| && '\n' !in args && exists rest :: t == args + "]:" + rest && RestIs(rest, value)
  }

  lemma ArgsEnd(t: string, i: nat, args: string, value: string)
    requires ArgsRead(t, i, args, value)
    ensures |args| + 1 < |t| && t[|args|] == ']' && t[|args| + 1] == ':' && t[..|args|] == args
    ensures RestIs(t[|args| + 2..], value)
  {
    var rest :| t == args + "]:" + rest && RestIs(rest, value);
    assert t[|args| + 2..] == rest;
  }

  lemma ArgsHere(t: string, i: nat, value: string)
    requires i + 1 < |t| && t[i] == ']' && t[i + 1] == ':' && RestIs(t[i + 2..], value) && '\n' !in t[..i]
    ensures ArgsRead(t, i, t[..i], value)
  {
    assert t == t[..i] + "]:" + t[i + 2..];
  }

  /** The arguments that are matched are the shortest that can be read. */
  lemma {:induction false} MatchArgsIff(t: string, i: nat)
    requires i <= |t| && '\n' !in t[..i]
    ensures MatchArgs(t, i).Some? ==> ArgsRead(t, i, MatchArgs(t, i).value.0, MatchArgs(t, i).value.1)
    ensures forall args, value | ArgsRead(t, i, args, value) ::
              MatchArgs(t, i).Some? && |MatchArgs(t, i).value.0| <= |args|
    decreases |t| - i
  {
    var here := i + 1 < |t| && t[i] == ']' && t[i + 1] == ':' && RestOfLine(t[i + 2..]).Some?;
    if here {
      RestOfLineIff(t[i + 2..], RestOfLine(t[i + 2..]).value);
      ArgsHere(t, i, RestOfLine(t[i + 2..]).value);
    } else {
      if i < |t| && t[i] != '\n' {
        assert t[..i + 1] == t[..i] + [t[i]];
        MatchArgsIff(t, i + 1);
      }
      forall args, value | ArgsRead(t, i, args, value)
        ensures i < |t| && t[i] != '\n' && ArgsRead(t, i + 1, args, value)
      {
        ArgsEnd(t, i, args, value);
        RestOfLineIff(t[|args| + 2..], value);
        assert i < |args| ==> t[i] == args[i] && args[i] in args;
      }
    }
  }

  /** The scheme reaches at least to position `i`. */
  ghost predicate ReadsFrom(s: string, i: nat, r: Reference) {
    Reads(s, r) && i <= |r.scheme|
  }

  lemma SchemeEnd(s: string, r: Reference)
    requires Reads(s, r)
    ensures |r.scheme| < |s| && s[..|r.scheme|] == r.scheme
    ensures
      var rest := s[|r.scheme| + 1..];
      match r.args
      case None => s[|r.scheme|] == ':' && RestIs(rest, r.value)
      case Some(args) => s[|r.scheme|] == '[' && ArgsRead(rest, 0, args, r.value)
  {
    var n := |r.scheme|;
    match r.args
    case None =>
      var rest :| s == r.scheme + ":" + rest && RestIs(rest, r.value);
      assert s[n + 1..] == rest;
    case Some(args) =>
      var rest :| s == r.scheme + "[" + args + "]:" + rest && RestIs(rest, r.value);
      assert s[n + 1..] == args + "]:" + rest;
  }

  lemma PlainHere(s: string, i: nat, value: string)
    requires 0 < i < |s| && s[i] == ':' && '[' !in s[..i] && RestIs(s[i + 1..], value)
    ensures ReadsFrom(s, i, Reference(s[..i], None, value))
  {
    assert s == s[..i] + ":" + s[i + 1..];
  }

  lemma ArgsAfterScheme(s: string, i: nat, args: string, value: string)
    requires 0 < i < |s| && s[i] == '[' && '[' !in s[..i] && ArgsRead(s[i + 1..], 0, args, value)
    ensures ReadsFrom(s, i, Reference(s[..i], Some(args), value))
  {
    var rest :| s[i + 1..] == args + "]:" + rest && RestIs(rest, value);
    assert s == s[..i] + "[" + args + "]:" + rest;
  }

  lemma {:induction false} MatchIdentIff(s: string, i: nat)
    requires i <= |s| && '[' !in s[..i]
    ensures MatchIdent(s, i).Some? ==> ReadsFrom(s, i, MatchIdent(s, i).value)
    ensures forall r | ReadsFrom(s, i, r) ::
              MatchIdent(s, i).Some? && |MatchIdent(s, i).value.scheme| <= |r.scheme|
    decreases |s| - i
  {
    if i < |s| {
      if s[i] == '[' {
        MatchArgsIff(s[i + 1..], 0);
      }
      if i > 0 && s[i] == '[' && MatchArgs(s[i + 1..], 0).Some? {
        ArgsAfterScheme(s, i, MatchArgs(s[i + 1..], 0).value.0, MatchArgs(s[i + 1..], 0).value.1);
      } else if i > 0 && s[i] == ':' && RestOfLine(s[i + 1..]).Some? {
        RestOfLineIff(s[i + 1..], RestOfLine(s[i + 1..]).value);
        PlainHere(s, i, RestOfLine(s[i + 1..]).value);
      } else {
        if s[i] != '[' {
          assert s[..i + 1] == s[..i] + [s[i]];
          MatchIdentIff(s, i + 1);
        }
        forall r | ReadsFrom(s, i, r)
          ensures s[i] != '[' && ReadsFrom(s, i + 1, r)
        {
          NotHere(s, i, r);
        }
      }
    } else {
      forall r | Reads(s, r)
        ensures |r.scheme| < |s|
      {
        SchemeEnd(s, r);
      }
    }
  }

  lemma NotHere(s: string, i: nat, r: Reference)
    requires i < |s| && '[' !in s[..i] && ReadsFrom(s, i, r)
    requires !(i > 0 && s[i] == '[' && MatchArgs(s[i + 1..], 0).Some?)
    requires !(i > 0 && s[i] == ':' && RestOfLine(s[i + 1..]).Some?)
    ensures s[i] != '[' && ReadsFrom(s, i + 1, r)
  {
    SchemeEnd(s, r);
    assert i < |r.scheme| ==> s[i] == r.scheme[i] && r.scheme[i] in r.scheme;
    if i == |r.scheme| {
      match r.args
      case None => RestOfLineIff(s[i + 1..], r.value);
      case Some(args) => MatchArgsIff(s[i + 1..], 0);
    }
  }

  /**
   A text is a reference exactly if it can be read as one. Of several ways to read it, the one with
   the shortest scheme is taken.
   */
  lemma ParseIdentIff(s: string)
    ensures ParseIdent(s).Some? <==> exists r :: Reads(s, r)
    ensures ParseIdent(s).Some? ==>
              && Reads(s, ParseIdent(s).value)
              && forall r | Reads(s, r) :: |ParseIdent(s).value.scheme| <= |r.scheme|
  {
    MatchIdentIff(s, 0);
    assert forall r | Reads(s, r) :: ReadsFrom(s, 0, r);
  }

  // ----- Path texts -----

  /** `str` of a relative path. */
  function Joined(parts: seq<string>): string {
    if parts == [] then "."
    else if |parts| == 1 then parts[0]
    else Joined(parts[..|parts| - 1]) + "/" + parts[|parts| - 1]
  }

  /** The components of a path text, as pathlib reads them; `done` is the component being read. */
  function Components(s: string, done: string): seq<string> {
    if s == [] then Kept(done)
    else if s[0] == '/' then Kept(done) + Components(s[1..], [])
    else Components(s[1..], done + [s[0]])
  }

  function Kept(c: string): seq<string> {
    if c == "" || c == "." then [] else [c]
  }

  lemma {:induction false} ComponentsAppend(s: string, done: string, c: string)
    requires '/' !in c
    ensures Components(s + "/" + c, done) == Components(s, done) + Kept(c)
  {
    if s == [] {
      assert (s + "/" + c)[0] == '/' && (s + "/" + c)[1..] == c;
      ComponentsOfOne(c, []);
      assert [] + c == c;
    } else {
      assert (s + "/" + c)[1..] == s[1..] + "/" + c;
      if s[0] == '/' {
        ComponentsAppend(s[1..], [], c);
      } else {
        ComponentsAppend(s[1..], done + [s[0]], c);
      }
    }
  }

  lemma {:induction false} ComponentsOfOne(c: string, done: string)
    requires '/' !in c
    ensures Components(c, done) == Kept(done + c)
  {
    if c == [] {
      assert done + c == done;
    } else {
      assert c[0] in c && done + c == done + [c[0]] + c[1..];
      ComponentsOfOne(c[1..], done + [c[0]]);
    }
  }

  lemma {:induction false} JoinedRoundTrip(parts: seq<string>)
    requires forall c | c in parts :: Component(c)
    ensures Components(Joined(parts), []) == parts
    ensures Joined(parts) != "" && Joined(parts)[0] != '/'
  {
    if parts == [] {
      ComponentsOfOne(".", []);
    } else {
      var front, c := parts[..|parts| - 1], parts[|parts| - 1];
      assert c in parts && parts == front + [c];
      if |parts| == 1 {
        ComponentsOfOne(c, []);
        assert [] + c == c;
        assert c[0] in c;
      } else {
        JoinedRoundTrip(front);
        ComponentsAppend(Joined(front), [], c);
      }
    }
  }

  // ----- References saved and loaded next to the same file -----

  /** `to_str`: the reference as written into a file in directory `dir`. */
  function Save(target: Path, dir: Path): Result<string, Error> {
    match PathRelativeTo(target, dir)
    case Failure(e) => Failure(e)
    case Success(parts) => Success(PrintFile(Joined(parts)))
  }

  /** `parse` and `to_path`: what a reference read from a file in `dir` denotes. */
  function Load(ident: string, dir: Path): Option<Path> {
    match ParseIdent(ident)
    case None => None
    case Some(r) =>
      if r.scheme != "file" then None
      else if r.value != "" && r.value[0] == '/' then Some(Path(dir.anchor, Normalize(Components(r.value, []))))
      else Some(Path(dir.anchor, Normalize(dir.parts + Components(r.value, []))))
  }

  lemma {:induction false} NoNewlineJoined(parts: seq<string>)
    requires forall c | c in parts :: '\n' !in c
    ensures '\n' !in Joined(parts)
  {
    if |parts| > 1 {
      NoNewlineJoined(parts[..|parts| - 1]);
      assert parts[|parts| - 1] in parts;
    } else if |parts| == 1 {
      assert parts[0] in parts;
    }
  }

  /** A reference saved in a directory and loaded from there names the same file. */
  lemma SaveLoad(target: Path, dir: Path)
    requires Normal(target) && Normal(dir) && target.anchor == dir.anchor
    requires forall c | c in target.parts :: '\n' !in c
    ensures Save(target, dir).Success? && Load(Save(target, dir).value, dir) == Some(target)
  {
    RelativeResolves(target, dir);
    var m := CommonPrefix(target, dir, |dir.parts|);
    var parts := PathRelativeTo(target, dir).value;
    forall c | c in parts
      ensures Component(c) && '\n' !in c
    {
      assert c == ".." || c in target.parts;
    }
    JoinedRoundTrip(parts);
    NoNewlineJoined(parts);
    FileTextRoundTripIff(Joined(parts));
  }
}
