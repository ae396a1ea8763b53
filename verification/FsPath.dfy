/** Paths (path_paser, path_depth_cnt in fs/fs.c): splitting a path into its components. */
module FsPath {
  import opened Bits
  import opened Bytes

  const SLASH: Byte := 47
  const NAME_MAX: nat := 15

  type Name = seq<Byte>

  // length of the stretch without a slash at the front
  function Span(path: seq<Byte>): (n: nat)
    ensures n <= |path| && forall k :: 0 <= k < n ==> path[k] != SLASH
    ensures n < |path| ==> path[n] == SLASH
  {
    if path == [] || path[0] == SLASH then 0 else 1 + Span(path[1..])
  }

  // the path behind its leading slashes
  function Skip(path: seq<Byte>): (r: seq<Byte>)
    ensures |r| <= |path| && (r != [] ==> r[0] != SLASH)
  {
    if path == [] || path[0] != SLASH then path else Skip(path[1..])
  }

  // the non-empty pieces between slashes, in order
  function Components(path: seq<Byte>): (cs: seq<Name>)
    ensures forall c :: c in cs ==> c != [] && SLASH !in c
    decreases |path|
  {
    var p := Skip(path);
    if p == [] then [] else [p[..Span(p)]] + Components(p[Span(p)..])
  }

  // what path_paser leaves: the sub-path it returns, or None for its NULL, and the component it stored
  function Parsed(path: seq<Byte>): (Option<seq<Byte>>, Name) {
    var p := Skip(path);
    (if Span(p) == |p| then None else Some(p[Span(p)..]), p[..Span(p)])
  }

  // path_paser; name_store is zeroed, so what it holds afterwards is the name
  method PathParser(path: seq<Byte>) returns (rest: Option<seq<Byte>>, name: Name)
    ensures (rest, name) == Parsed(path)
  {
    var p := path;
    if p != [] && p[0] == SLASH {
      while p != [] && p[0] == SLASH
        invariant Skip(p) == Skip(path)
        decreases |p|
      {
        p := p[1..];
      }
    }
    ghost var start := p;
    name := [];
    while p != [] && p[0] != SLASH
      invariant |name| <= |start| && name == start[..|name|] && p == start[|name|..]
      invariant Span(start) == |name| + Span(p)
      decreases |p|
    {
      name := name + [p[0]];
      p := p[1..];
    }
    rest := if p == [] then None else Some(p);
  }

  // One call takes off the first component; an empty one means there is none left.
  lemma ParsedComponents(path: seq<Byte>)
    ensures Components(path) == if Parsed(path).1 == [] then []
                                else [Parsed(path).1] + if Parsed(path).0 == None then [] else Components(Parsed(path).0.value)
    ensures Parsed(path).1 == [] ==> Parsed(path).0 == None
  {
    var p := Skip(path);
    if Span(p) == |p| {
      assert p[Span(p)..] == [];
      assert Components([]) == [];
    }
  }

  // the components still to come: the name just stored, and those of the sub-path
  function Left(subPath: Option<seq<Byte>>, name: Name): seq<Name> {
    if name == [] then [] else [name] + if subPath == None then [] else Components(subPath.value)
  }

  // the next component, if there is a sub-path
  method NextName(subPath: Option<seq<Byte>>) returns (rest: Option<seq<Byte>>, name: Name)
    ensures Left(rest, name) == if subPath == None then [] else Components(subPath.value)
  {
    rest, name := subPath, [];
    if subPath.Some? {
      ParsedComponents(subPath.value);
      rest, name := PathParser(subPath.value);
    }
  }

  // path_depth_cnt; junk is the first byte of its uninitialised name buffer
  method PathDepthCnt(path: seq<Byte>, junk: Byte) returns (depth: nat)
    requires forall c :: c in Components(path) ==> |c| <= NAME_MAX && c[0] != 0
    ensures depth == if Components(path) == [] && junk != 0 then 1 else |Components(path)|
  {
    depth := 0;
    var p: Option<seq<Byte>>, name: Name := PathParser(path);
    ParsedComponents(path);
    var name0 := if name == [] then junk else name[0];
    ghost var left := if name == [] then [] else Components(path)[1..];
    ghost var extra := if name == [] && junk != 0 then 1 else 0;
    while name0 != 0
      invariant left == if p == None then [] else Components(p.value)
      invariant forall c :: c in left ==> c in Components(path)
      invariant depth + (if name0 != 0 then 1 else 0) + |left| == |Components(path)| + extra
      invariant name0 == 0 ==> left == []
      decreases if name0 != 0 then |left| + 1 else 0
    {
      depth := depth + 1;
      name, name0 := [], 0;
      if p != None {
        ParsedComponents(p.value);
        p, name := PathParser(p.value);
        if name != [] {
          assert name == left[0];
          name0 := name[0];
          left := left[1..];
        }
      }
    }
  }

  // the path search_file records: a slash before each component
  function Joined(cs: seq<Name>): seq<Byte> {
    if cs == [] then [] else [SLASH] + cs[0] + Joined(cs[1..])
  }

  // The recorded path has the components it was made of.
  lemma {:induction false} JoinedComponents(cs: seq<Name>)
    requires forall c :: c in cs ==> c != [] && SLASH !in c
    ensures Components(Joined(cs)) == cs
  {
    if cs != [] {
      assert cs[0] in cs && forall c :: c in cs[1..] ==> c in cs;
      JoinedComponents(cs[1..]);
      FirstComponent(cs[0], Joined(cs[1..]));
    }
  }

  // and is no longer than the path, if that starts with a slash
  lemma {:induction false} JoinedLength(path: seq<Byte>)
    requires path == [] || path[0] == SLASH
    ensures |Joined(Components(path))| <= |path|
    decreases |path|
  {
    var p := Skip(path);
    if p != [] {
      SkipShortens(path);
      var name, rest := p[..Span(p)], p[Span(p)..];
      JoinedLength(rest);
      assert Components(path) == [name] + Components(rest);
      assert ([name] + Components(rest))[1..] == Components(rest);
    }
  }

  lemma SkipShortens(path: seq<Byte>)
    requires path != [] && path[0] == SLASH
    ensures |Skip(path)| < |path|
  {
  }

  lemma {:induction false} JoinedPrefix(cs: seq<Name>, k: nat)
    requires k <= |cs|
    ensures |Joined(cs[..k])| <= |Joined(cs)|
  {
    if k > 0 {
      assert cs[..k][1..] == cs[1..][..k - 1];
      JoinedPrefix(cs[1..], k - 1);
    }
  }

  lemma {:induction false} FirstComponent(name: Name, rest: seq<Byte>)
    requires name != [] && SLASH !in name && (rest == [] || rest[0] == SLASH)
    ensures Components([SLASH] + name + rest) == [name] + Components(rest)
  {
    var p, path := name + rest, [SLASH] + name + rest;
    assert path[1..] == p && p[0] == name[0] && name[0] in name;
    assert Skip(p) == p;
    assert Skip(path) == Skip(path[1..]);
    SpanOf(name, rest);
    assert p[..|name|] == name && p[|name|..] == rest;
  }

  lemma {:induction false} SpanOf(name: Name, rest: seq<Byte>)
    requires SLASH !in name && (rest == [] || rest[0] == SLASH)
    ensures Span(name + rest) == |name|
  {
    if name != [] {
      assert name[0] in name;
      assert (name + rest)[1..] == name[1..] + rest;
      SpanOf(name[1..], rest);
    } else {
      assert name + rest == rest;
    }
  }

  lemma {:induction false} SkipAppend(pre: seq<Byte>, post: seq<Byte>)
    ensures Skip(pre + post) == if Skip(pre) == [] then Skip(post) else Skip(pre) + post
  {
    if pre == [] {
      assert pre + post == post;
    } else if pre[0] == SLASH {
      assert (pre + post)[1..] == pre[1..] + post;
      SkipAppend(pre[1..], post);
    }
  }

  lemma {:induction false} SpanAppend(p: seq<Byte>, post: seq<Byte>)
    requires post != [] && post[0] == SLASH
    ensures Span(p + post) == Span(p)
  {
    if p == [] {
      assert p + post == post;
    } else if p[0] != SLASH {
      assert (p + post)[1..] == p[1..] + post;
      SpanAppend(p[1..], post);
    }
  }

  // The component behind the last slash, which sys_open passes on, is the last one.
  lemma {:induction false} LastComponent(pre: seq<Byte>, name: Name)
    requires name != [] && SLASH !in name
    ensures Components(pre + ([SLASH] + name)) == Components(pre) + [name]
    decreases |pre|
  {
    var post := [SLASH] + name;
    SkipAppend(pre, post);
    var p := Skip(pre);
    OnlyComponent(name);
    if p != [] {
      SpanAppend(p, post);
      assert (p + post)[..Span(p)] == p[..Span(p)] && (p + post)[Span(p)..] == p[Span(p)..] + post;
      LastComponent(p[Span(p)..], name);
    } else {
      assert Components(pre) == [];
      SkipNone(pre, post);
    }
  }

  lemma OnlyComponent(name: Name)
    requires name != [] && SLASH !in name
    ensures Components([SLASH] + name) == [name]
  {
    assert [SLASH] + name + [] == [SLASH] + name;
    FirstComponent(name, []);
    assert Components([]) == [];
  }

  lemma SkipNone(pre: seq<Byte>, post: seq<Byte>)
    requires Skip(pre) == [] && Skip(pre + post) == Skip(post)
    ensures Components(pre + post) == Components(post)
  {
  }
}
