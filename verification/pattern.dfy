// How `get_w_no_mutex` turns a query path such as "/a/*x/**/b" into a
// list of segment matchers, and which node paths such a list selects.
module Pattern {

  // One compiled query segment: a literal key, a single-segment wildcard
  // (a segment containing `*`, compiled by `__get` into a regular
  // expression from its raw text) or `**`.
  datatype Seg = Lit(name: string) | Wild(raw: string) | AnyDepth

  // ---------------------------------------------------------------------
  // path.gsub!(/(\/\*\*)+/, '/**')

  // A "/" followed by two stars at position `i`.
  predicate RunAt(s: string, i: nat)
  {
    i + 3 <= |s| && s[i] == '/' && s[i + 1] == '*' && s[i + 2] == '*'
  }

  predicate StartsRun(s: string)
  {
    RunAt(s, 0)
  }

  // Skip a run of consecutive "/**" at the front.
  function DropRuns(s: string): (r: string)
    ensures |r| <= |s| && !StartsRun(r)
    decreases |s|
  {
    if StartsRun(s) then DropRuns(s[3..]) else s
  }

  // No "/**" immediately follows another.
  predicate NoRepeatedRun(s: string)
  {
    forall i: nat | i < |s| :: RunAt(s, i) ==> !RunAt(s, i + 3)
  }

  // A suffix of a string without repeated runs has none either.
  lemma NoRepeatedRunSuffix(s: string, k: nat)
    requires k <= |s|
    ensures NoRepeatedRun(s) ==> NoRepeatedRun(s[k..])
  {
    if NoRepeatedRun(s) {
      forall i: nat | i < |s[k..]| && RunAt(s[k..], i)
        ensures !RunAt(s[k..], i + 3)
      {
        assert RunAt(s, i + k);
        assert RunAt(s[k..], i + 3) ==> RunAt(s, i + k + 3);
      }
    }
  }

  // Replace every maximal run of consecutive "/**" by a single "/**",
  // scanning left to right as `gsub` does. A path in which no "/**"
  // directly follows another, in particular one without "/**", is left
  // unchanged.
  function Collapse(s: string): (r: string)
    ensures |r| <= |s|
    ensures NoRepeatedRun(s) ==> r == s
    decreases |s|
  {
    if StartsRun(s) then
      NoRepeatedRunSuffix(s, 3);
      assert RunAt(s, 0);
      assert StartsRun(s[3..]) ==> RunAt(s, 3);
      assert s == s[..3] + s[3..];
      "/**" + Collapse(DropRuns(s[3..]))
    else if |s| == 0 then ""
    else
      NoRepeatedRunSuffix(s, 1);
      assert s == [s[0]] + s[1..];
      [s[0]] + Collapse(s[1..])
  }

  // Collapsing keeps the first two characters, and starts with a run
  // exactly when its input does.
  lemma {:induction false} CollapseFront(s: string)
    ensures |s| >= 1 ==> |Collapse(s)| >= 1 && Collapse(s)[0] == s[0]
    ensures |s| >= 2 ==> |Collapse(s)| >= 2 && Collapse(s)[1] == s[1]
    ensures StartsRun(Collapse(s)) <==> StartsRun(s)
    decreases |s|
  {
    if !StartsRun(s) && |s| > 0 {
      var r := Collapse(s);
      CollapseFront(s[1..]);
      assert r == [s[0]] + Collapse(s[1..]);
      if |s| >= 3 {
        assert r[1] == s[1] && r[2] == s[2];
      }
    }
  }

  // After collapsing, no "/**" directly follows another.
  lemma {:induction false} CollapseNoRepeatedRun(s: string)
    ensures NoRepeatedRun(Collapse(s))
    decreases |s|
  {
    var r := Collapse(s);
    if StartsRun(s) {
      var d := DropRuns(s[3..]);
      CollapseNoRepeatedRun(d);
      CollapseFront(d);
      var c := Collapse(d);
      assert r == "/**" + c;
      forall i: nat | RunAt(r, i)
        ensures !RunAt(r, i + 3)
      {
        if i >= 3 {
          assert RunAt(c, i - 3);
          assert RunAt(r, i + 3) <==> RunAt(c, i);
        } else if i == 0 {
          assert RunAt(r, 3) <==> StartsRun(c);
        }
      }
    } else if |s| > 0 {
      CollapseNoRepeatedRun(s[1..]);
      CollapseFront(s[1..]);
      var c := Collapse(s[1..]);
      assert r == [s[0]] + c;
      forall i: nat | RunAt(r, i)
        ensures !RunAt(r, i + 3)
      {
        if i >= 1 {
          assert RunAt(c, i - 1);
          assert RunAt(r, i + 3) <==> RunAt(c, i + 2);
        }
      }
    }
  }

  // Collapsing twice is collapsing once.
  lemma CollapseIdempotent(s: string)
    ensures Collapse(Collapse(s)) == Collapse(s)
  {
    CollapseNoRepeatedRun(s);
  }

  // Collapsing a path that starts with "/**", in terms of the rest: a run
  // directly after it is absorbed, anything else is kept behind it.
  lemma CollapseStep(s: string)
    requires StartsRun(s)
    ensures Collapse(s) == if StartsRun(s[3..]) then Collapse(s[3..]) else "/**" + Collapse(s[3..])
  {
    if StartsRun(s[3..]) {
      assert s[3..][3..] == s[6..];
    }
  }

  // Removing a "/**" that directly follows another does not change the
  // collapsed path: collapsing removes repeated runs and nothing else.
  // With `NoRepeatedRun` and `Collapse`'s own contract this fixes the
  // result: remove repeated runs one at a time until none is left.
  lemma {:induction false} CollapseDropsRepeatedRun(s: string, i: nat)
    requires RunAt(s, i) && RunAt(s, i + 3)
    ensures Collapse(s[..i + 3] + s[i + 6..]) == Collapse(s)
    decreases |s|
  {
    var s' := s[..i + 3] + s[i + 6..];
    assert s'[..3] == s[..3];
    if i == 0 {
      assert s'[3..] == s[6..] && s[3..][3..] == s[6..];
      CollapseStep(s);
      CollapseStep(s');
      CollapseStep(s[3..]);
    } else if StartsRun(s) {
      var t, i' := s[3..], i - 3;
      assert RunAt(t, i') && RunAt(t, i' + 3);
      var t' := t[..i' + 3] + t[i' + 6..];
      assert s'[3..] == t';
      assert t'[..3] == t[..3];
      CollapseDropsRepeatedRun(t, i');
      CollapseStep(s);
      CollapseStep(s');
    } else {
      var t := s[1..];
      assert RunAt(t, i - 1) && RunAt(t, i + 2);
      assert s'[1..] == t[..i + 2] + t[i + 5..];
      CollapseDropsRepeatedRun(t, i - 1);
      assert !StartsRun(s');
    }
  }

  // ---------------------------------------------------------------------
  // path.split('/')

  // Every '/'-separated field of `s`, trailing empty ones included.
  function SplitAll(s: string): (r: seq<string>)
    ensures |r| >= 1
    ensures forall i | 0 <= i < |r| :: '/' !in r[i]
    decreases |s|
  {
    if |s| == 0 then [""]
    else if s[0] == '/' then [""] + SplitAll(s[1..])
    else
      var rest := SplitAll(s[1..]);
      [[s[0]] + rest[0]] + rest[1..]
  }

  // Ruby drops the trailing empty fields of a split.
  function DropTrailingEmpty(fs: seq<string>): (r: seq<string>)
    ensures |r| <= |fs| && r == fs[..|r|]
    ensures |r| > 0 ==> r[|r| - 1] != ""
    ensures forall i | |r| <= i < |fs| :: fs[i] == ""
  {
    if |fs| > 0 && fs[|fs| - 1] == "" then DropTrailingEmpty(fs[..|fs| - 1]) else fs
  }

  // `String#split('/')`: its fields hold no '/', the last one is not
  // empty, and joining them with '/' gives `s` without its trailing '/'
  // characters.
  function Split(s: string): (r: seq<string>)
    ensures forall i | 0 <= i < |r| :: '/' !in r[i]
    ensures |r| > 0 ==> r[|r| - 1] != ""
    ensures Join(r) == TrimSlashes(s)
  {
    var fs := SplitAll(s);
    JoinSplitAll(s);
    JoinDropTrailingEmpty(fs);
    DropTrailingEmpty(fs)
  }

  // The fields joined back with '/'.
  function Join(fs: seq<string>): string
  {
    if |fs| == 0 then "" else if |fs| == 1 then fs[0] else fs[0] + "/" + Join(fs[1..])
  }

  // `s` without its trailing '/' characters.
  function TrimSlashes(s: string): string
  {
    if |s| > 0 && s[|s| - 1] == '/' then TrimSlashes(s[..|s| - 1]) else s
  }

  // Joining the fields of a split gives the string back.
  lemma {:induction false} JoinSplitAll(s: string)
    ensures Join(SplitAll(s)) == s
    decreases |s|
  {
    if |s| > 0 {
      JoinSplitAll(s[1..]);
      var rest := SplitAll(s[1..]);
      if s[0] == '/' {
        assert SplitAll(s)[1..] == rest;
      } else {
        assert Join(rest) == rest[0] + (if |rest| == 1 then "" else "/" + Join(rest[1..]));
        assert SplitAll(s)[1..] == rest[1..];
        assert s == [s[0]] + s[1..];
      }
    }
  }

  // Joining with one more field appends a separator and that field.
  lemma {:induction false} JoinSnoc(gs: seq<string>, f: string)
    requires |gs| >= 1
    ensures Join(gs + [f]) == Join(gs) + "/" + f
    decreases |gs|
  {
    if |gs| > 1 {
      JoinSnoc(gs[1..], f);
      assert (gs + [f])[1..] == gs[1..] + [f];
    }
  }

  // A join whose last field is non-empty and has no '/' does not end
  // in '/'.
  lemma {:induction false} JoinLast(fs: seq<string>)
    requires |fs| >= 1 && fs[|fs| - 1] != "" && '/' !in fs[|fs| - 1]
    ensures |Join(fs)| > 0 && Join(fs)[|Join(fs)| - 1] == fs[|fs| - 1][|fs[|fs| - 1]| - 1]
    decreases |fs|
  {
    if |fs| > 1 {
      JoinLast(fs[1..]);
    }
  }

  // Dropping trailing empty fields is trimming trailing separators.
  lemma {:induction false} JoinDropTrailingEmpty(fs: seq<string>)
    requires |fs| >= 1 && forall i | 0 <= i < |fs| :: '/' !in fs[i]
    ensures Join(DropTrailingEmpty(fs)) == TrimSlashes(Join(fs))
    decreases |fs|
  {
    var last := fs[|fs| - 1];
    if last != "" {
      JoinLast(fs);
      assert last[|last| - 1] in last;
    } else if |fs| == 1 {
      assert DropTrailingEmpty(fs) == DropTrailingEmpty([]);
    } else {
      var gs := fs[..|fs| - 1];
      JoinSnoc(gs, "");
      assert gs + [""] == fs;
      var j := Join(gs) + "/";
      assert Join(fs) == j;
      assert j[..|j| - 1] == Join(gs);
      assert TrimSlashes(j) == TrimSlashes(Join(gs));
      assert DropTrailingEmpty(fs) == DropTrailingEmpty(gs);
      JoinDropTrailingEmpty(gs);
    }
  }

  // ---------------------------------------------------------------------
  // segment.strip

  // Ruby's whitespace for `strip`: NUL, tab, line feed, vertical tab, form
  // feed, carriage return and space.
  predicate IsSpace(c: char)
  {
    c == '\0' || c == ' ' || '\t' <= c <= '\r'
  }

  function TrimStart(s: string): (r: string)
    ensures |r| <= |s| && r == s[|s| - |r|..]
    ensures forall i | 0 <= i < |s| - |r| :: IsSpace(s[i])
    ensures |r| > 0 ==> !IsSpace(r[0])
  {
    if |s| > 0 && IsSpace(s[0]) then TrimStart(s[1..]) else s
  }

  function TrimEnd(s: string): (r: string)
    ensures |r| <= |s| && r == s[..|r|]
    ensures forall i | |r| <= i < |s| :: IsSpace(s[i])
    ensures |r| > 0 ==> !IsSpace(r[|r| - 1])
  {
    if |s| > 0 && IsSpace(s[|s| - 1]) then TrimEnd(s[..|s| - 1]) else s
  }

  // `String#strip`: `s` without leading and trailing whitespace.
  function Strip(s: string): (r: string)
    ensures |r| > 0 ==> !IsSpace(r[0]) && !IsSpace(r[|r| - 1])
  {
    TrimEnd(TrimStart(s))
  }

  // What strip removes is whitespace and what it keeps is one piece of
  // `s`.
  lemma StripShape(s: string) returns (i: nat, j: nat)
    ensures i <= j <= |s| && Strip(s) == s[i..j]
    ensures forall k | 0 <= k < i :: IsSpace(s[k])
    ensures forall k | j <= k < |s| :: IsSpace(s[k])
  {
    var a := TrimStart(s);
    var b := TrimEnd(a);
    i, j := |s| - |a|, |s| - |a| + |b|;
    assert b == a[..|b|];
    forall k | j <= k < |s|
      ensures IsSpace(s[k])
    {
      assert s[k] == a[k - i];
    }
  }

  // ---------------------------------------------------------------------
  // Compiling the query path

  // The classification in `get_w_no_mutex`: a segment that strips to "**"
  // is `**`; otherwise a raw segment containing `*` becomes a wildcard
  // built from the raw text, and anything else a literal of the stripped
  // text.
  function Classify(raw: string): (s: Seg)
    ensures s.Lit? ==> '*' !in raw && s.name == Strip(raw)
    ensures s.Wild? ==> '*' in raw && s.raw == raw && Strip(raw) != "**"
    ensures s.AnyDepth? <==> Strip(raw) == "**"
  {
    var stripped := Strip(raw);
    if stripped == "**" then AnyDepth
    else if '*' in raw then Wild(raw)
    else Lit(stripped)
  }

  // `drop(1).map { ... }`: classify every field after the first.
  function Segments(fs: seq<string>): (segs: seq<Seg>)
    ensures |segs| == if |fs| == 0 then 0 else |fs| - 1
    ensures forall i | 0 <= i < |segs| :: segs[i] == Classify(fs[i + 1])
  {
    var rest := if |fs| == 0 then [] else fs[1..];
    seq(|rest|, i requires 0 <= i < |rest| => Classify(rest[i]))
  }

  // Collapse `**` runs, split on '/', and classify the fields after the
  // leading one.
  function CompileSlashed(path: string): seq<Seg>
  {
    Segments(Split(Collapse(path)))
  }

  // `get_w_no_mutex`'s compilation as written: a path that does not start
  // with '/' is replaced by "/" (it interpolates its own local `path`, which
  // is still nil there), so it selects the root.
  function CompileAsWritten(path: string): (segs: seq<Seg>)
    ensures !(|path| > 0 && path[0] == '/') ==> segs == []
  {
    CompileRoot();
    CompileSlashed(if |path| > 0 && path[0] == '/' then path else "/")
  }

  // The path "/" compiles to no segments: it selects the root.
  lemma CompileRoot()
    ensures CompileSlashed("/") == []
  {
    assert Collapse("/") == "/";
    assert SplitAll("/") == ["", ""];
    assert Split("/") == [];
  }

  // As written, "a/b" selects the root instead of the node at /a/b.
  lemma UnslashedPathSelectsRoot()
    ensures CompileAsWritten("a/b") == []
    ensures Compile("a/b") == [Lit("a"), Lit("b")]
  {
    assert "/" + "a/b" == "/a/b";
    CompileExample();
  }

  lemma CompileExample()
    ensures CompileSlashed("/a/b") == [Lit("a"), Lit("b")]
  {
    assert Collapse("/a/b") == "/a/b";
    SplitExample();
    ClassifyPlain("a");
    ClassifyPlain("b");
    assert Segments(["", "a", "b"]) == [Lit("a"), Lit("b")];
  }

  // Splitting a field without '/' gives that field.
  lemma {:induction false} SplitAllField(f: string)
    requires '/' !in f
    ensures SplitAll(f) == [f]
    decreases |f|
  {
    if |f| > 0 {
      SplitAllField(f[1..]);
      assert [f[0]] + f[1..] == f;
    }
  }

  // Splitting a field without '/', a '/' and a rest.
  lemma {:induction false} SplitAllCons(f: string, t: string)
    requires '/' !in f
    ensures SplitAll(f + "/" + t) == [f] + SplitAll(t)
    decreases |f|
  {
    var s := f + "/" + t;
    if |f| == 0 {
      assert s == "/" + t && s[1..] == t;
    } else {
      assert s[1..] == f[1..] + "/" + t;
      SplitAllCons(f[1..], t);
      assert [f[0]] + f[1..] == f;
    }
  }

  // Splitting fields joined with '/' gives the fields back when none
  // contains '/' (trailing empty fields included).
  lemma {:induction false} SplitAllJoin(fs: seq<string>)
    requires |fs| >= 1 && forall i | 0 <= i < |fs| :: '/' !in fs[i]
    ensures SplitAll(Join(fs)) == fs
    decreases |fs|
  {
    if |fs| == 1 {
      SplitAllField(fs[0]);
    } else {
      SplitAllJoin(fs[1..]);
      SplitAllCons(fs[0], Join(fs[1..]));
      assert [fs[0]] + fs[1..] == fs;
    }
  }

  // `split('/')` undoes joining with '/' when no field contains '/' and
  // the last field is not empty.
  lemma SplitOfJoin(fs: seq<string>)
    requires |fs| >= 1 && forall i | 0 <= i < |fs| :: '/' !in fs[i]
    requires fs[|fs| - 1] != ""
    ensures Split(Join(fs)) == fs
  {
    SplitAllJoin(fs);
  }

  lemma JoinAB()
    ensures Join(["a", "b"]) == "a/b"
  {
    assert ["a", "b"][1..] == ["b"];
  }

  lemma SplitExample()
    ensures Split("/a/b") == ["", "a", "b"]
  {
    var fs := ["", "a", "b"];
    assert fs[1..] == ["a", "b"];
    JoinAB();
    assert "" + "/" + "a/b" == "/a/b";
    SplitOfJoin(fs);
  }

  // Compilation as evidently intended: a path without a leading '/' is
  // read as if it had one.
  function Compile(path: string): (segs: seq<Seg>)
    ensures |path| > 0 && path[0] == '/' ==> segs == CompileAsWritten(path)
    ensures !(|path| > 0 && path[0] == '/') ==> segs == CompileAsWritten("/" + path)
  {
    CompileSlashed(if |path| > 0 && path[0] == '/' then path else "/" + path)
  }

  // A segment without '*' and without surrounding whitespace is a literal
  // of itself.
  lemma ClassifyPlain(s: string)
    requires |s| > 0 && !IsSpace(s[0]) && !IsSpace(s[|s| - 1]) && '*' !in s
    ensures Classify(s) == Lit(s)
  {
    StripPlain(s);
    assert s != "**" by {
      assert "**"[0] == '*';
    }
  }

  // Strip leaves a string without surrounding whitespace alone.
  lemma StripPlain(s: string)
    requires |s| > 0 && !IsSpace(s[0]) && !IsSpace(s[|s| - 1])
    ensures Strip(s) == s
  {
    assert TrimStart(s) == s;
  }


  // Compiling a '/'-prefixed path is insensitive to collapsing it first.
  lemma CompileCollapsed(path: string)
    requires |path| > 0 && path[0] == '/'
    ensures Compile(Collapse(path)) == Compile(path)
  {
    CollapseFront(path);
    CollapseIdempotent(path);
  }

  // A repeated `**` segment is merged before splitting: removing a "/**"
  // that directly follows another, as in "/a/**/**/b" against "/a/**/b",
  // does not change the compiled segments.
  lemma CompileDropsRepeatedRun(path: string, i: nat)
    requires |path| > 0 && path[0] == '/'
    requires RunAt(path, i) && RunAt(path, i + 3)
    ensures Compile(path[..i + 3] + path[i + 6..]) == Compile(path)
  {
    CollapseDropsRepeatedRun(path, i);
    assert (path[..i + 3] + path[i + 6..])[0] == '/';
  }

  // ---------------------------------------------------------------------
  // Which node paths a compiled query selects

  // Whether a segment matcher accepts a child key. A wildcard uses the
  // regular expression compiled from its raw text, abstracted as `sm`;
  // `**` compared against a key (as `matching_ancestors` does with a
  // string) is a plain comparison.
  predicate SegAccepts(sm: (string, string) -> bool, s: Seg, key: string)
  {
    match s
    case Lit(name) => name == key
    case Wild(raw) => sm(raw, key)
    case AnyDepth => key == "**"
  }

  // The node paths, relative to where the query starts, that the segments
  // from `idx` on select: a literal or wildcard consumes one accepted key,
  // a final `**` any one or more keys, and a `**` followed by a segment `s`
  // any keys followed by one that `s` accepts.
  ghost predicate Matches(sm: (string, string) -> bool, segs: seq<Seg>, idx: nat, p: seq<string>)
    requires idx <= |segs|
    decreases |segs| - idx
  {
    if idx == |segs| then |p| == 0
    else match segs[idx]
      case AnyDepth =>
        if idx == |segs| - 1 then |p| >= 1
        else exists j | 0 <= j < |p| :: SegAccepts(sm, segs[idx + 1], p[j]) && Matches(sm, segs, idx + 2, p[j + 1..])
      case _ => |p| >= 1 && SegAccepts(sm, segs[idx], p[0]) && Matches(sm, segs, idx + 1, p[1..])
  }
}
