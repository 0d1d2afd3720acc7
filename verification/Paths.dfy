/** How the route serializer reads a base path: stripped of white space and brought into the
    form of Python's `posixpath.normpath` (backend/zane_api/serializers.py). */
module Paths {
  import opened Text

  /** What `str.strip` takes for white space. */
  predicate IsSpace(c: char) {
    var n := c as int;
    || 0x9 <= n <= 0xD || 0x1C <= n <= 0x20 || n == 0x85 || n == 0xA0 || n == 0x1680
    || 0x2000 <= n <= 0x200A || n == 0x2028 || n == 0x2029 || n == 0x202F || n == 0x205F || n == 0x3000
  }

  function LeftStrip(s: string): string {
    if s != "" && IsSpace(s[0]) then LeftStrip(s[1..]) else s
  }

  function RightStrip(s: string): string {
    if s != "" && IsSpace(s[|s| - 1]) then RightStrip(s[..|s| - 1]) else s
  }

  function Strip(s: string): string {
    LeftStrip(RightStrip(s))
  }

  /** `s.split("/")` */
  function Split(s: string): (parts: seq<string>)
    ensures parts != []
  {
    if s == "" then [""]
    else
      var before, c := Split(s[..|s| - 1]), s[|s| - 1];
      if c == '/' then before + [""] else before[..|before| - 1] + [before[|before| - 1] + [c]]
  }

  function Join(parts: seq<string>): string {
    if parts == [] then "" else if |parts| == 1 then parts[0] else Join(parts[..|parts| - 1]) + "/" + parts[|parts| - 1]
  }

  /** The loop of `normpath`: empty and `.` components go, `..` takes the one before with it. */
  function Resolved(parts: seq<string>, absolute: bool): seq<string> {
    if parts == [] then []
    else
      var before, comp := Resolved(parts[..|parts| - 1], absolute), parts[|parts| - 1];
      if comp == "" || comp == "." then before
      else if comp != ".." || (!absolute && before == []) || (before != [] && before[|before| - 1] == "..") then
        before + [comp]
      else if before != [] then before[..|before| - 1]
      else before
  }

  /** Two leading slashes stay two; one, or more than two, become one. */
  function Slashes(s: string): string {
    if "//" <= s && !("///" <= s) then "//" else if "/" <= s then "/" else ""
  }

  /** `os.path.normpath` */
  function NormPath(s: string): string {
    var path := Slashes(s) + Join(Resolved(Split(s), Slashes(s) != ""));
    if path == "" then "." else path
  }

  // ---------------------------------------------------------------- stripping

  /** Of the ASCII characters the blank, the line and page breaks, the tabs and the separators are
      white space. */
  lemma AsciiSpace(c: char)
    requires c as int < 0x80
    ensures IsSpace(c) <==> c in " \t\n\r\U{0B}\U{0C}\U{1C}\U{1D}\U{1E}\U{1F}"
  {}

  ghost predicate SpacesIn(s: string, i: nat, j: nat) {
    forall k :: i <= k < j && k < |s| ==> IsSpace(s[k])
  }

  lemma {:induction false} LeftStripIs(s: string) returns (i: nat)
    ensures i <= |s| && LeftStrip(s) == s[i..] && SpacesIn(s, 0, i) && (i < |s| ==> !IsSpace(s[i]))
  {
    i := 0;
    if s != "" && IsSpace(s[0]) {
      var t := s[1..];
      var j := LeftStripIs(t);
      i := j + 1;
      forall k | 0 <= k < i ensures IsSpace(s[k]) { if k > 0 { assert s[k] == t[k - 1]; } }
    }
  }

  lemma {:induction false} RightStripIs(s: string) returns (j: nat)
    ensures j <= |s| && RightStrip(s) == s[..j] && SpacesIn(s, j, |s|) && (j > 0 ==> !IsSpace(s[j - 1]))
  {
    j := |s|;
    if s != "" && IsSpace(s[|s| - 1]) {
      var t := s[..|s| - 1];
      j := RightStripIs(t);
      forall k | j <= k < |s| ensures IsSpace(s[k]) { if k < |t| { assert s[k] == t[k]; } }
    }
  }

  lemma PrefixOf(s: string, i: nat, j: nat)
    requires i <= j <= |s|
    ensures s[..j][i..] == s[i..j] && (i < j ==> s[..j][i] == s[i])
    ensures SpacesIn(s[..j], 0, i) ==> SpacesIn(s, 0, i)
  {
    if SpacesIn(s[..j], 0, i) {
      forall k | 0 <= k < i ensures IsSpace(s[k]) { assert s[..j][k] == s[k]; }
    }
  }

  /** Stripping takes white space away at both ends, all of it and nothing else. */
  lemma StripIs(s: string) returns (i: nat, j: nat)
    ensures i <= j <= |s| && Strip(s) == s[i..j] && SpacesIn(s, 0, i) && SpacesIn(s, j, |s|)
    ensures i < j ==> !IsSpace(s[i]) && !IsSpace(s[j - 1])
  {
    j := RightStripIs(s);
    i := LeftStripIs(RightStrip(s));
    PrefixOf(s, i, j);
  }

  // ---------------------------------------------------------------- components

  ghost predicate NoSlashIn(parts: seq<string>) {
    forall i :: 0 <= i < |parts| ==> '/' !in parts[i]
  }

  lemma SplitSnoc(s: string, c: char, front: seq<string>, last: string)
    requires Split(s) == front + [last]
    ensures Split(s + [c]) == if c == '/' then front + [last] + [""] else front + [last + [c]]
  {
    assert (s + [c])[..|s|] == s;
  }

  lemma JoinSnoc(parts: seq<string>, last: string)
    ensures Join(parts + [last]) == if parts == [] then last else Join(parts) + "/" + last
  {
    assert (parts + [last])[..|parts|] == parts;
  }

  lemma LastOf(parts: seq<string>) returns (front: seq<string>, last: string)
    requires parts != []
    ensures parts == front + [last] && last == parts[|front|]
    ensures forall i :: 0 <= i < |front| ==> front[i] == parts[i]
  {
    front, last := parts[..|parts| - 1], parts[|parts| - 1];
  }

  lemma SplitJoinSlash(t: string, parts: seq<string>)
    requires Split(t) == parts && Join(parts) == t && NoSlashIn(parts)
    ensures NoSlashIn(Split(t + "/")) && Join(Split(t + "/")) == t + "/"
  {
    var front, last := LastOf(parts);
    SplitSnoc(t, '/', front, last);
    JoinSnoc(parts, "");
  }

  lemma SplitJoinOther(t: string, c: char, front: seq<string>, last: string)
    requires Split(t) == front + [last] && Join(front + [last]) == t
    requires NoSlashIn(front) && '/' !in last && c != '/'
    ensures NoSlashIn(Split(t + [c])) && Join(Split(t + [c])) == t + [c]
  {
    SplitSnoc(t, c, front, last);
    JoinSnoc(front, last);
    JoinSnoc(front, last + [c]);
  }

  /** Splitting at slashes loses nothing: the components are free of them, and joined by them they
      are the text. */
  lemma {:induction false} SplitJoin(s: string)
    ensures NoSlashIn(Split(s)) && Join(Split(s)) == s
  {
    if s != "" {
      var t, c := s[..|s| - 1], s[|s| - 1];
      SplitJoin(t);
      assert s == t + [c];
      if c == '/' {
        SplitJoinSlash(t, Split(t));
      } else {
        var front, last := LastOf(Split(t));
        SplitJoinOther(t, c, front, last);
      }
    }
  }

  /** A component that stands for a directory or a file of that name. */
  predicate Ordinary(comp: string) {
    comp != "" && comp != "." && comp != ".." && '/' !in comp
  }

  ghost predicate AllOrdinary(parts: seq<string>) {
    forall i :: 0 <= i < |parts| ==> Ordinary(parts[i])
  }

  /** Components that can be told from one another when joined. */
  ghost predicate Solid(parts: seq<string>) {
    forall i :: 0 <= i < |parts| ==> parts[i] != "" && '/' !in parts[i]
  }

  lemma {:induction false} ResolvedIsSolid(parts: seq<string>, absolute: bool)
    requires NoSlashIn(parts)
    ensures Solid(Resolved(parts, absolute))
  {
    if parts != [] { ResolvedIsSolid(parts[..|parts| - 1], absolute); }
  }

  /** An absolute path resolves to ordinary components. */
  lemma {:induction false} ResolvedIsOrdinary(parts: seq<string>)
    requires NoSlashIn(parts)
    ensures AllOrdinary(Resolved(parts, true))
  {
    if parts != [] { ResolvedIsOrdinary(parts[..|parts| - 1]); }
  }

  lemma ResolvedSnoc(parts: seq<string>, comp: string)
    ensures Ordinary(comp) ==> Resolved(parts + [comp], true) == Resolved(parts, true) + [comp]
    ensures comp == "" || comp == "." ==> Resolved(parts + [comp], true) == Resolved(parts, true)
    ensures comp == ".." && Resolved(parts, true) == [] ==> Resolved(parts + [comp], true) == []
    ensures forall front, last :: comp == ".." && Resolved(parts, true) == front + [last] && last != ".." ==>
              Resolved(parts + [comp], true) == front
  {
    assert (parts + [comp])[..|parts|] == parts;
    forall front, last | comp == ".." && Resolved(parts, true) == front + [last] && last != ".."
      ensures Resolved(parts + [comp], true) == front
    {
      var before := Resolved(parts, true);
      assert before[|before| - 1] == last && before[..|before| - 1] == front;
    }
  }

  /** Ordinary components stay as they are. */
  lemma {:induction false} OrdinaryIsKept(parts: seq<string>, more: seq<string>)
    requires AllOrdinary(more)
    ensures Resolved(parts + more, true) == Resolved(parts, true) + more
    decreases |more|
  {
    if more == [] {
      assert parts + more == parts;
    } else {
      var front, last := LastOf(more);
      OrdinaryIsKept(parts, front);
      ResolvedSnoc(parts + front, last);
      assert parts + more == parts + front + [last];
    }
  }

  /** And `..` takes the last one away. */
  lemma DotDotTakesLast(parts: seq<string>, comp: string)
    requires Ordinary(comp)
    ensures Resolved(parts + [comp] + [".."], true) == Resolved(parts, true)
  {
    ResolvedSnoc(parts, comp);
    ResolvedSnoc(parts + [comp], "..");
  }

  lemma {:induction false} SplitConcat(a: string, b: string, front: seq<string>, last: string)
    requires '/' !in b && Split(a) == front + [last]
    ensures Split(a + b) == front + [last + b]
  {
    if b == "" {
      assert a + b == a && last + b == last;
    } else {
      var t, c := b[..|b| - 1], b[|b| - 1];
      assert b == t + [c];
      SplitConcat(a, t, front, last);
      SplitConcatStep(a + t, c, front, last + t);
      assert a + b == a + t + [c] && last + b == last + t + [c];
    }
  }

  lemma SplitConcatStep(s: string, c: char, front: seq<string>, last: string)
    requires c != '/' && Split(s) == front + [last]
    ensures Split(s + [c]) == front + [last + [c]]
  {
    SplitSnoc(s, c, front, last);
  }

  lemma JoinSplitOne(text: string, before: seq<string>, last: string)
    requires '/' !in last && Split(text) == before + [""]
    ensures Split(text + last) == before + [] + [last]
  {
    SplitConcat(text, last, before, "");
    assert "" + last == last && before + [] == before;
  }

  lemma JoinSplitMore(text: string, joined: string, parts: seq<string>, last: string)
    requires Split(text + joined) == parts && '/' !in last
    ensures Split(text + (joined + "/" + last)) == parts + [last]
  {
    assert text + (joined + "/" + last) == (text + joined) + "/" + last;
    JoinTail(text + joined, parts, last);
  }

  /** Joining loses nothing either. */
  lemma {:induction false} JoinSplit(text: string, before: seq<string>, parts: seq<string>)
    requires NoSlashIn(parts) && parts != [] && Split(text) == before + [""]
    ensures Split(text + Join(parts)) == before + parts
    decreases |parts|
  {
    var front, last := LastOf(parts);
    JoinSnoc(front, last);
    if front == [] {
      JoinSplitOne(text, before, last);
    } else {
      JoinSplit(text, before, front);
      JoinSplitMore(text, Join(front), before + front, last);
    }
    assert before + parts == before + front + [last];
  }

  lemma JoinTail(text: string, parts: seq<string>, last: string)
    requires Split(text) == parts && '/' !in last
    ensures Split(text + "/" + last) == parts + [last]
  {
    var front, end := LastOf(parts);
    SplitSnoc(text, '/', front, end);
    SplitConcat(text + "/", last, parts, "");
    assert "" + last == last;
  }

  // ---------------------------------------------------------------- absolute paths

  ghost predicate Absolute(s: string) { "/" <= s }

  /** The components that are left of an absolute path. */
  function Components(s: string): seq<string> {
    Resolved(Split(s), true)
  }

  lemma ComponentsAreOrdinary(s: string)
    ensures AllOrdinary(Components(s)) && NoSlashIn(Components(s))
  {
    SplitJoin(s);
    ResolvedIsOrdinary(Split(s));
  }

  lemma JoinStarts(parts: seq<string>)
    requires Solid(parts)
    ensures parts == [] ==> Join(parts) == ""
    ensures parts != [] ==> Join(parts) != "" && Join(parts)[0] != '/'
    decreases |parts|
  {
    if parts != [] {
      var front, last := LastOf(parts);
      JoinStarts(front);
      JoinSnoc(front, last);
    }
  }

  lemma NormalFormOf(s: string)
    requires Absolute(s)
    ensures NormPath(s) == Slashes(s) + Join(Components(s)) && Slashes(s) in {"/", "//"}
    ensures Slashes(NormPath(s)) == Slashes(s)
  {
    ComponentsAreOrdinary(s);
    JoinStarts(Components(s));
    SlashesStay(Slashes(s), Join(Components(s)));
  }

  /** Two slashes in front stay two; one, or more than two, become one. */
  lemma SlashesAre(s: string, n: nat)
    requires n <= |s| && (forall i :: 0 <= i < n ==> s[i] == '/') && (n < |s| ==> s[n] != '/')
    ensures Slashes(s) == if n == 0 then "" else if n == 2 then "//" else "/"
  {}

  lemma SlashesStay(front: string, rest: string)
    requires front in {"/", "//"} && (rest == "" || rest[0] != '/')
    ensures Slashes(front + rest) == front
  {
    var path := front + rest;
    assert path[..|front|] == front;
    assert |path| > |front| ==> path[|front|] == rest[0];
  }

  lemma SplitSlashesOnly()
    ensures Split("/") == [""] + [""] && Split("//") == ["", ""] + [""]
  {
    SplitSnoc("", '/', [], "");
    SplitSnoc("/", '/', [""], "");
  }

  /** The components of a normal form are those of the path. */
  lemma NormalFormKeepsComponents(s: string)
    requires Absolute(s)
    ensures Components(NormPath(s)) == Components(s)
  {
    NormalFormOf(s);
    ComponentsAreOrdinary(s);
    SplitSlashesOnly();
    var parts := Components(s);
    var before := if Slashes(s) == "/" then [""] else ["", ""];
    EmptyGoes(before);
    if parts == [] {
      assert Slashes(s) + "" == Slashes(s);
      EmptyGoes(before + [""]);
    } else {
      JoinSplit(Slashes(s), before, parts);
      OrdinaryIsKept(before, parts);
    }
  }

  lemma {:induction false} EmptyGoes(parts: seq<string>)
    requires forall i :: 0 <= i < |parts| ==> parts[i] == ""
    ensures Resolved(parts, true) == []
    decreases |parts|
  {
    if parts != [] { EmptyGoes(parts[..|parts| - 1]); }
  }

  /** Normalising twice is normalising once. */
  lemma NormPathTwice(s: string)
    requires Absolute(s)
    ensures NormPath(NormPath(s)) == NormPath(s)
  {
    NormalFormOf(s);
    NormalFormKeepsComponents(s);
    assert Absolute(NormPath(s));
    NormalFormOf(NormPath(s));
  }

  /** Only an absolute path has an absolute normal form. */
  lemma NormalFormStarts(s: string)
    ensures NormPath(s) != "" && (NormPath(s)[0] == '/' <==> Absolute(s))
  {
    if Absolute(s) {
      NormalFormOf(s);
    } else {
      RelativeForm(s);
      SplitJoin(s);
      ResolvedIsSolid(Split(s), false);
      JoinStarts(Resolved(Split(s), false));
    }
  }

  lemma RelativeForm(s: string)
    requires !Absolute(s)
    ensures var path := Join(Resolved(Split(s), false)); NormPath(s) == if path == "" then "." else path
  {
    assert Slashes(s) == "";
  }

  // ---------------------------------------------------------------- what a path must not hold

  /** The path has a `*` or a `..` in it. */
  ghost predicate Unwanted(path: string) {
    '*' in path || exists i :: DotsAt(path, i)
  }

  predicate DotsAt(path: string, i: int) {
    0 <= i < |path| - 1 && path[i] == '.' && path[i + 1] == '.'
  }

  lemma UnwantedConcat(a: string, b: string)
    requires a == "" || a[|a| - 1] == '/'
    ensures Unwanted(a + b) <==> Unwanted(a) || Unwanted(b)
  {
    var ab := a + b;
    if i :| DotsAt(a, i) { assert DotsAt(ab, i); }
    if i :| DotsAt(b, i) { assert DotsAt(ab, |a| + i); }
    if i :| DotsAt(ab, i) { assert i < |a| - 1 ==> DotsAt(a, i); assert i >= |a| ==> DotsAt(b, i - |a|); }
  }

  lemma UnwantedSlash(a: string)
    ensures Unwanted(a + "/") <==> Unwanted(a)
  {
    var path := a + "/";
    if i :| DotsAt(a, i) { assert DotsAt(path, i); }
    if i :| DotsAt(path, i) { assert DotsAt(a, i); }
  }

  lemma {:induction false} UnwantedJoin(parts: seq<string>)
    ensures Unwanted(Join(parts)) <==> exists i :: 0 <= i < |parts| && Unwanted(parts[i])
    decreases |parts|
  {
    if parts != [] {
      var front, last := LastOf(parts);
      JoinSnoc(front, last);
      if front != [] {
        UnwantedJoin(front);
        UnwantedSlash(Join(front));
        UnwantedConcat(Join(front) + "/", last);
      }
    }
  }

  /** What the route serializer asks of a path, read off its components. */
  lemma NormalFormIsWanted(s: string)
    requires Absolute(s)
    ensures Unwanted(NormPath(s)) <==> exists i :: 0 <= i < |Components(s)| && Unwanted(Components(s)[i])
  {
    NormalFormOf(s);
    UnwantedJoin(Components(s));
    UnwantedConcat(Slashes(s), Join(Components(s)));
  }

  // ---------------------------------------------------------------- a star at the end stays

  ghost predicate EndsInStar(s: string) {
    s != "" && s[|s| - 1] == '*'
  }

  lemma {:induction false} SplitLast(s: string)
    requires EndsInStar(s)
    ensures EndsInStar(Split(s)[|Split(s)| - 1])
  {}

  lemma SplitTrailing(s: string, absolute: bool)
    requires s != "" && s[|s| - 1] == '/'
    ensures Resolved(Split(s), absolute) == Resolved(Split(s[..|s| - 1]), absolute)
  {
    var before := Split(s[..|s| - 1]);
    assert Split(s) == before + [""];
    ResolvedEmpty(before, absolute);
  }

  lemma ResolvedEmpty(parts: seq<string>, absolute: bool)
    ensures Resolved(parts + [""], absolute) == Resolved(parts, absolute)
  {
    assert (parts + [""])[..|parts|] == parts;
  }

  /** Slashes at the end add no component. */
  lemma {:induction false} SplitSlashes(s: string, absolute: bool)
    ensures Resolved(Split(s), absolute) == Resolved(Split(RStrip(s, '/')), absolute)
  {
    if s != "" && s[|s| - 1] == '/' {
      SplitTrailing(s, absolute);
      SplitSlashes(s[..|s| - 1], absolute);
    }
  }

  lemma LastComponentStays(parts: seq<string>, absolute: bool)
    requires parts != [] && EndsInStar(parts[|parts| - 1])
    ensures Resolved(parts, absolute) != []
            && Resolved(parts, absolute)[|Resolved(parts, absolute)| - 1] == parts[|parts| - 1]
  {
    var comp := parts[|parts| - 1];
    assert comp[|comp| - 1] == '*';
    assert comp != "." && comp != "..";
  }

  lemma JoinEndsInStar(parts: seq<string>, front: string)
    requires parts != [] && EndsInStar(parts[|parts| - 1])
    ensures EndsInStar(front + Join(parts)) && '*' in front + Join(parts)
  {
    assert EndsInStar(Join(parts));
    var path := front + Join(parts);
    assert path[|path| - 1] == '*';
  }

  /** If a path ends in a star, not counting slashes, then its normal form still has a star. */
  lemma StarStays(s: string)
    requires EndsInStar(RStrip(s, '/'))
    ensures '*' in NormPath(s)
  {
    var absolute := Slashes(s) != "";
    var parts := Split(RStrip(s, '/'));
    SplitSlashes(s, absolute);
    SplitLast(RStrip(s, '/'));
    LastComponentStays(parts, absolute);
    JoinEndsInStar(Resolved(parts, absolute), Slashes(s));
  }

  lemma {:induction false} LeftStripIsEnd(s: string)
    ensures |LeftStrip(s)| <= |s| && LeftStrip(s) == s[|s| - |LeftStrip(s)|..]
  {
    if s != "" && IsSpace(s[0]) { LeftStripIsEnd(s[1..]); }
  }

  lemma {:induction false} StarIsNotStripped(s: string, i: nat)
    requires i < |s| && s[i] == '*'
    ensures |LeftStrip(s)| <= |s| && |s| - |LeftStrip(s)| <= i
  {
    if IsSpace(s[0]) { StarIsNotStripped(s[1..], i - 1); }
  }

  /** Stripping white space leaves the star where it was. */
  lemma StripKeepsStar(s: string)
    requires EndsInStar(RStrip(s, '/'))
    ensures EndsInStar(RStrip(Strip(s), '/'))
  {
    var n := |RStrip(s, '/')|;
    assert s[n - 1] == '*' && forall i :: n <= i < |s| ==> s[i] == '/';
    assert RightStrip(s) == s;
    StarThenSlashes(s, n);
  }

  lemma StarThenSlashes(s: string, n: nat)
    requires 0 < n <= |s| && s[n - 1] == '*' && forall i :: n <= i < |s| ==> s[i] == '/'
    ensures EndsInStar(RStrip(LeftStrip(s), '/'))
  {
    LeftStripIsEnd(s);
    StarIsNotStripped(s, n - 1);
    var t := LeftStrip(s);
    var k := |s| - |t|;
    assert forall i :: 0 <= i < |t| ==> t[i] == s[i + k];
    RStripIs(t, '/', n - k);
  }

  /** So a base path whose normal form has no star does not end in one, not counting slashes. */
  lemma NoStarAtTheEnd(s: string)
    requires '*' !in NormPath(Strip(s))
    ensures !EndsInStar(RStrip(s, '/'))
  {
    if EndsInStar(RStrip(s, '/')) {
      StripKeepsStar(s);
      StarStays(Strip(s));
    }
  }

  lemma SplitSlash()
    ensures Split("/") == ["", ""]
  {
    assert "/"[..0] == "" && Split("") == [""];
  }

  lemma SplitA()
    ensures Split("/a") == ["", "a"]
  {
    SplitSlash();
    assert "/a"[..1] == "/" && "" + ['a'] == "a";
    assert Split("/a") == ["", ""][..1] + ["" + ['a']];
  }

  lemma ResolvedA()
    ensures Resolved(["", ""], true) == [] && Resolved(["", "a"], true) == ["a"]
  {
    ResolvedEmpty([], true);
    ResolvedEmpty([""], true);
    assert [] + [""] == [""] && [""] + [""] == ["", ""];
    assert ["", "a"][..1] == [""];
  }

  lemma NormalFormOfRoot()
    ensures NormPath(Strip("/")) == "/"
  {
    SplitSlash();
    ResolvedA();
    assert Strip("/") == "/" && Slashes("/") == "/";
  }

  /** `/a` and `/a/` have one normal form. */
  lemma NormalFormOfA()
    ensures NormPath(Strip("/a")) == "/a"
  {
    SplitA();
    ResolvedA();
    assert Strip("/a") == "/a" && Slashes("/a") == "/";
  }

  lemma NormalFormOfASlash()
    ensures NormPath(Strip("/a/")) == "/a"
  {
    SplitA();
    ResolvedA();
    assert "/a/"[..2] == "/a";
    SplitTrailing("/a/", true);
    assert Strip("/a/") == "/a/" && Slashes("/a/") == "/";
  }
}
