/** Paths: splitting off the last component, and resolution component by component. */
module Paths {
  import opened Codec
  import opened Lookups

  const SLASH: Byte := 0x2F
  const ROOT_INODE: nat := 2

  predicate NoSlash(s: seq<Byte>) {
    forall i :: 0 <= i < |s| ==> s[i] != SLASH
  }

  /** The index of the last slash; 0 also when there is none. */
  function LastSlash(s: seq<Byte>): (i: nat)
    ensures i <= |s| && (s != [] ==> i < |s|)
    ensures forall j :: i < j < |s| ==> s[j] != SLASH
    ensures i > 0 ==> s[i] == SLASH
  {
    if s == [] then 0
    else if s[|s| - 1] == SLASH then |s| - 1
    else LastSlash(s[..|s| - 1])
  }

  /** The path before the last slash, "/" when that is the first byte. */
  function Parent(source: seq<Byte>): seq<Byte>
    requires source != []
  {
    if LastSlash(source) == 0 then [SLASH] else source[..LastSlash(source)]
  }

  /** What follows the last slash. The first byte is dropped when there is no other slash, whatever it is. */
  function Name(source: seq<Byte>): seq<Byte>
    requires source != []
  {
    source[LastSlash(source) + 1..]
  }

  /** ext2_path_to_parent_and_name; it fails for the empty path only. */
  method PathToParentAndName(source: seq<Byte>) returns (ok: bool, path: seq<Byte>, name: seq<Byte>)
    ensures ok <==> source != []
    ensures ok ==> path == Parent(source) && name == Name(source)
  {
    path, name := [], [];
    if |source| == 0 {
      return false, path, name;
    }
    var last: nat, i: nat := 0, 0;
    while i < |source|
      invariant i <= |source| && last == LastSlash(source[..i])
    {
      assert source[..i + 1][..i] == source[..i];
      if source[i] == SLASH {
        last := i;
      }
      i := i + 1;
    }
    assert source[..i] == source;
    ok := true;
    if last == 0 {
      path, name := [SLASH], source[1..];
    } else {
      path, name := source[..last], source[last + 1..];
    }
  }

  /** The name has no slash, and the parts make up the path again exactly when the path has a slash to split at. */
  lemma Rejoined(source: seq<Byte>)
    requires source != []
    ensures NoSlash(Name(source))
    ensures LastSlash(source) > 0 ==> source == Parent(source) + [SLASH] + Name(source)
    ensures LastSlash(source) == 0 ==>
              Parent(source) == [SLASH] && (source == [SLASH] + Name(source) <==> source[0] == SLASH)
  {
    hide LastSlash;
    var k := LastSlash(source);
    SplitAt(source, k);
    if k == 0 && source == [SLASH] + Name(source) {
      assert ([SLASH] + Name(source))[0] == SLASH;
    }
  }

  lemma SplitAt(s: seq<Byte>, k: nat)
    requires k < |s|
    ensures s == s[..k] + [s[k]] + s[k + 1..]
    ensures k == 0 ==> s == [s[0]] + s[1..]
  {
  }

  // ----- Tokens -----

  function FirstSlash(s: seq<Byte>): (i: nat)
    ensures i <= |s| && (i < |s| ==> s[i] == SLASH)
    ensures forall j :: 0 <= j < i ==> s[j] != SLASH
  {
    if s == [] || s[0] == SLASH then 0 else 1 + FirstSlash(s[1..])
  }

  /** The nonempty components of a path, in order. */
  function Tokens(s: seq<Byte>): seq<seq<Byte>>
    decreases |s|
  {
    if s == [] then []
    else if s[0] == SLASH then Tokens(s[1..])
    else [s[..FirstSlash(s)]] + Tokens(s[FirstSlash(s)..])
  }

  method SkipSlashes(s: seq<Byte>, from: nat) returns (start: nat)
    requires from <= |s|
    ensures from <= start <= |s| && (start < |s| ==> s[start] != SLASH)
    ensures Tokens(s[from..]) == Tokens(s[start..])
  {
    start := from;
    while start < |s| && s[start] == SLASH
      invariant from <= start <= |s| && Tokens(s[from..]) == Tokens(s[start..])
    {
      assert s[start..][1..] == s[start + 1..];
      start := start + 1;
    }
  }

  method ScanToken(s: seq<Byte>, start: nat) returns (end: nat)
    requires start <= |s|
    ensures start <= end <= |s| && (end < |s| ==> s[end] == SLASH) && forall j :: start <= j < end ==> s[j] != SLASH
  {
    end := start;
    while end < |s| && s[end] != SLASH
      invariant start <= end <= |s| && forall j :: start <= j < end ==> s[j] != SLASH
    {
      end := end + 1;
    }
  }

  /** A token, and the slash behind it if there is one. */
  lemma TokenAt(s: seq<Byte>, start: nat, end: nat)
    requires start < end <= |s| && (end < |s| ==> s[end] == SLASH) && forall j :: start <= j < end ==> s[j] != SLASH
    ensures Tokens(s[start..]) == [s[start..end]] + Tokens(s[if end < |s| then end + 1 else end..])
  {
    var t := s[start..];
    assert forall j :: 0 <= j < end - start ==> t[j] == s[start + j];
    FirstSlashIs(t, end - start);
    assert t[..end - start] == s[start..end] && t[end - start..] == s[end..];
    if end < |s| {
      assert s[end..][1..] == s[end + 1..];
    }
  }

  /** strtok: the next token from a position, and the position behind it. */
  method NextToken(s: seq<Byte>, from: nat) returns (found: bool, token: seq<Byte>, next: nat)
    requires from <= |s|
    ensures from <= next <= |s|
    ensures found ==> from < next && token != [] && Tokens(s[from..]) == [token] + Tokens(s[next..])
    ensures !found ==> Tokens(s[from..]) == []
    ensures found ==> |token| <= |s| && forall k :: 0 <= k < |token| ==> token[k] in s
  {
    hide FirstSlash;
    var start := SkipSlashes(s, from);
    if start == |s| {
      return false, [], start;
    }
    next := ScanToken(s, start);
    TokenAt(s, start, next);
    found, token := true, s[start..next];
    if next < |s| {
      next := next + 1;
    }
  }

  lemma FirstSlashIs(s: seq<Byte>, i: nat)
    requires i <= |s| && (i < |s| ==> s[i] == SLASH) && forall j :: 0 <= j < i ==> s[j] != SLASH
    ensures FirstSlash(s) == i
  {
  }

  /** Slashes separate: the tokens on the two sides of one are the tokens of the sides. */
  lemma {:induction false} TokensJoin(a: seq<Byte>, b: seq<Byte>)
    ensures Tokens(a + [SLASH] + b) == Tokens(a) + Tokens(b)
    decreases |a|
  {
    var s := a + [SLASH] + b;
    if a == [] {
      assert s[1..] == b;
    } else if a[0] == SLASH {
      TokensJoin(a[1..], b);
      assert s[1..] == a[1..] + [SLASH] + b;
    } else {
      var i := FirstSlash(a);
      JoinedToken(a, b, i);
      TokensJoin(a[i..], b);
      assert [a[..i]] + (Tokens(a[i..]) + Tokens(b)) == ([a[..i]] + Tokens(a[i..])) + Tokens(b);
    }
  }

  /** The first token of two parts is the first token of the first part. */
  lemma JoinedToken(a: seq<Byte>, b: seq<Byte>, i: nat)
    requires a != [] && a[0] != SLASH && i == FirstSlash(a)
    ensures 0 < i <= |a| && Tokens(a) == [a[..i]] + Tokens(a[i..])
    ensures Tokens(a + [SLASH] + b) == [a[..i]] + Tokens(a[i..] + [SLASH] + b)
  {
    var s := a + [SLASH] + b;
    assert forall j :: 0 <= j < i ==> s[j] == a[j];
    FirstSlashIs(s, i);
    assert s[..i] == a[..i] && s[i..] == a[i..] + [SLASH] + b;
  }

  lemma OneToken(name: seq<Byte>)
    requires NoSlash(name)
    ensures Tokens(name) == if name == [] then [] else [name]
  {
    FirstSlashIs(name, |name|);
    assert name[..|name|] == name && Tokens(name[|name|..]) == [];
  }

  /** The components of a path are those of its parent, then its name unless that is empty. */
  lemma TokensSplit(source: seq<Byte>)
    requires source != [] && (source[0] == SLASH || LastSlash(source) > 0)
    ensures Tokens(source) == Tokens(Parent(source)) + if Name(source) == [] then [] else [Name(source)]
  {
    Rejoined(source);
    OneToken(Name(source));
    if LastSlash(source) > 0 {
      TokensJoin(Parent(source), Name(source));
    } else {
      var nothing: seq<Byte> := [];
      TokensJoin(nothing, Name(source));
      assert nothing + [SLASH] + Name(source) == [SLASH] + Name(source);
      assert Tokens([SLASH]) == [];
    }
  }

  // ----- Resolution -----

  /** One component: the inode that a directory has under a name, 0 when it has none. */
  type Child = (nat, seq<Byte>) -> nat

  /** Component by component from inode n; 0 as soon as one is missing. */
  function Resolve(child: Child, n: nat, tokens: seq<seq<Byte>>): nat
    decreases |tokens|
  {
    if tokens == [] then n
    else if child(n, tokens[0]) == 0 then 0
    else Resolve(child, child(n, tokens[0]), tokens[1..])
  }

  /** Resolving one list of components after another. */
  lemma {:induction false} ResolveConcat(child: Child, n: nat, tokens: seq<seq<Byte>>, more: seq<seq<Byte>>)
    requires n != 0
    ensures Resolve(child, n, tokens + more) ==
            if Resolve(child, n, tokens) == 0 then 0 else Resolve(child, Resolve(child, n, tokens), more)
    decreases |tokens|
  {
    if tokens == [] {
      assert tokens + more == more;
    } else {
      assert (tokens + more)[1..] == tokens[1..] + more;
      if child(n, tokens[0]) != 0 {
        ResolveConcat(child, child(n, tokens[0]), tokens[1..], more);
      }
    }
  }

  lemma ResolveOne(child: Child, n: nat, token: seq<Byte>)
    ensures Resolve(child, n, [token]) == child(n, token) && Resolve(child, n, []) == n
  {
    assert [token][1..] == [];
  }

  /** Resolving a path is resolving its parent and then looking up its name there. */
  lemma ResolveSplit(child: Child, source: seq<Byte>)
    requires source != [] && (source[0] == SLASH || LastSlash(source) > 0)
    ensures var parent := Resolve(child, ROOT_INODE, Tokens(Parent(source)));
            Resolve(child, ROOT_INODE, Tokens(source)) ==
            if parent == 0 || Name(source) == [] then parent else child(parent, Name(source))
  {
    TokensSplit(source);
    var parent := Tokens(Parent(source));
    ResolveConcat(child, ROOT_INODE, parent, [Name(source)]);
    ResolveOne(child, Resolve(child, ROOT_INODE, parent), Name(source));
    assert parent + [] == parent;
  }

  /** The components of a path without NULs are without NULs. */
  lemma {:induction false} TokensNoNul(s: seq<Byte>)
    requires NoNul(s)
    ensures forall i :: 0 <= i < |Tokens(s)| ==> NoNul(Tokens(s)[i])
    decreases |s|
  {
    if s == [] {
    } else if s[0] == SLASH {
      TokensNoNul(s[1..]);
    } else {
      TokensNoNul(s[FirstSlash(s)..]);
    }
  }
}
