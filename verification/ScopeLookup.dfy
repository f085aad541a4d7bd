/**
 The interpreter's scopes and path (crates/hxy-010-lang/src/interp.rs): a count of the scopes that bind each
 name lets a lookup skip the walk, and the joined path is kept beside the stack of its segments.
 */
module ScopeLookup {
  import opened Splices

  /** Values are left open; a number stands for one. */
  type Scope = map<string, int>

  /** How many scopes bind a name. */
  function Binders(scopes: seq<Scope>, name: string): nat {
    if scopes == [] then 0
    else Binders(scopes[..|scopes| - 1], name) + if name in scopes[|scopes| - 1] then 1 else 0
  }

  /** The innermost binding, by walking all scopes from the last. */
  function Walk(scopes: seq<Scope>, name: string): Option<int> {
    if scopes == [] then None
    else if name in scopes[|scopes| - 1] then Some(scopes[|scopes| - 1][name])
    else Walk(scopes[..|scopes| - 1], name)
  }

  /** Each name's count is the number of its binders, and no count is zero. */
  ghost predicate CountsAgree(scopes: seq<Scope>, counts: map<string, nat>) {
    forall name :: (name in counts <==> Binders(scopes, name) > 0)
                   && (name in counts ==> counts[name] == Binders(scopes, name))
  }

  /** Skipping the walk for an uncounted name loses nothing. */
  lemma {:induction false} UncountedIsUnbound(scopes: seq<Scope>, name: string)
    ensures Walk(scopes, name).None? <==> Binders(scopes, name) == 0
    decreases |scopes|
  {
    if scopes != [] {
      UncountedIsUnbound(scopes[..|scopes| - 1], name);
    }
  }

  lemma {:induction false} BindersUpdate(scopes: seq<Scope>, i: nat, scope: Scope, name: string)
    requires i < |scopes|
    ensures (Binders(scopes[i := scope], name) + (if name in scopes[i] then 1 else 0)
             == Binders(scopes, name) + (if name in scope then 1 else 0))
    decreases |scopes|
  {
    var last := |scopes| - 1;
    if i < last {
      BindersUpdate(scopes[..last], i, scope, name);
      assert scopes[i := scope][..last] == scopes[..last][i := scope];
    } else {
      assert scopes[i := scope][..last] == scopes[..last];
    }
  }

  /** Rebinding the innermost binder shows the new value and no other name's. */
  lemma {:induction false} WalkUpdate(scopes: seq<Scope>, i: nat, name: string, value: int, other: string)
    requires i < |scopes| && (forall k :: i < k < |scopes| ==> name !in scopes[k])
    requires name in scopes[i] || i == |scopes| - 1
    ensures (Walk(scopes[i := scopes[i][name := value]], other)
             == if other == name then Some(value) else Walk(scopes, other))
    decreases |scopes|
  {
    var last := |scopes| - 1;
    var updated := scopes[i := scopes[i][name := value]];
    if i < last {
      WalkUpdate(scopes[..last], i, name, value, other);
      assert updated[..last] == scopes[..last][i := scopes[i][name := value]];
    } else {
      assert updated[..last] == scopes[..last];
    }
  }

  // ------------------------------------------------------------------ paths

  /** The segments with dots between them. */
  function Join(path: seq<string>): string {
    if path == [] then ""
    else if |path| == 1 then path[0]
    else Join(path[..|path| - 1]) + "." + path[|path| - 1]
  }

  /** What a push makes of the cached prefix. */
  function Pushed(prefix: string, segment: string): string {
    (if prefix != "" then prefix + "." else "") + segment
  }

  /**
   A push keeps the cached prefix the joined path behind every path but one: a lone empty segment, which costs
   the next one its dot.
   */
  lemma PushKeepsPrefix(path: seq<string>, segment: string)
    ensures Pushed(Join(path), segment) == Join(path + [segment]) <==> path != [""]
  {
    assert (path + [segment])[..|path|] == path;
    if |path| == 1 {
      assert path == [path[0]];
      assert |"." + segment| == |segment| + 1;
      assert "" + "." + segment == "." + segment;
    }
  }

  /** The first segment is a name. */
  predicate Rooted(path: seq<string>) {
    path != [] ==> path[0] != ""
  }

  class ScopeStack {
    var scopes: seq<Scope>
    var scopeVarCounts: map<string, nat>
    var path: seq<string>
    var cachedPathPrefix: string

    ghost predicate Valid()
      reads this
    {
      CountsAgree(scopes, scopeVarCounts) && Rooted(path) && cachedPathPrefix == Join(path)
    }

    constructor ()
      ensures Valid() && scopes == [map[]] && path == []
    {
      scopes, scopeVarCounts, path, cachedPathPrefix := [map[]], map[], [], "";
      new;
      assert scopes[..0] == [];
    }

    method PushScope()
      requires Valid()
      modifies `scopes
      ensures Valid() && scopes == old(scopes) + [map[]]
    {
      scopes := scopes + [map[]];
      assert scopes[..|scopes| - 1] == old(scopes);
    }

    /** `bind_var`: the innermost scope binds the name, and a new binder is counted. */
    method BindVar(name: string, value: int)
      requires Valid() && scopes != []
      modifies `scopes, `scopeVarCounts
      ensures Valid()
      ensures var last := |old(scopes)| - 1; scopes == old(scopes)[last := old(scopes)[last][name := value]]
    {
      var last := |scopes| - 1;
      if name !in scopes[last] {
        var count := if name in scopeVarCounts then scopeVarCounts[name] else 0;
        scopeVarCounts := scopeVarCounts[name := count + 1];
      }
      scopes := scopes[last := scopes[last][name := value]];
      forall n {
        BindersUpdate(old(scopes), last, scopes[last], n);
      }
    }

    /** `pop_scope`: every name the scope bound is counted down, and forgotten at zero. */
    method PopScope()
      requires Valid()
      modifies `scopes, `scopeVarCounts
      ensures Valid()
      ensures scopes == if old(scopes) == [] then [] else old(scopes)[..|old(scopes)| - 1]
    {
      if scopes == [] {
        return;
      }
      var scope := scopes[|scopes| - 1];
      scopes := scopes[..|scopes| - 1];
      var names := scope.Keys;
      while names != {}
        invariant names <= scope.Keys && scopes == old(scopes)[..|old(scopes)| - 1]
        invariant forall n :: var left := Binders(scopes, n) + if n in names then 1 else 0;
                              (n in scopeVarCounts <==> left > 0) && (n in scopeVarCounts ==> scopeVarCounts[n] == left)
        decreases |names|
      {
        var name :| name in names;
        names := names - {name};
        if scopeVarCounts[name] == 1 {
          scopeVarCounts := map n | n in scopeVarCounts && n != name :: scopeVarCounts[n];
        } else {
          scopeVarCounts := scopeVarCounts[name := scopeVarCounts[name] - 1];
        }
      }
    }

    /** The scope part of `lookup_ident`: the walk, unless no scope binds the name. */
    method LookupVar(name: string) returns (r: Option<int>)
      requires Valid()
      ensures r == Walk(scopes, name)
    {
      UncountedIsUnbound(scopes, name);
      if name !in scopeVarCounts {
        return None;
      }
      var i := |scopes|;
      assert scopes[..i] == scopes;
      while i > 0
        invariant 0 <= i <= |scopes| && Walk(scopes[..i], name) == Walk(scopes, name)
      {
        i := i - 1;
        assert scopes[..i + 1][..i] == scopes[..i];
        if name in scopes[i] {
          return Some(scopes[i][name]);
        }
      }
      return None;
    }

    /** `store_ident`: the innermost binder is updated, or the innermost scope becomes one. */
    method StoreIdent(name: string, value: int)
      requires Valid() && scopes != []
      modifies `scopes, `scopeVarCounts
      ensures Valid() && |scopes| == |old(scopes)|
      ensures forall n :: Walk(scopes, n) == if n == name then Some(value) else Walk(old(scopes), n)
    {
      var i := |scopes|;
      while i > 0
        invariant scopes == old(scopes) && Valid()
        invariant 0 <= i <= |scopes| && forall k :: i <= k < |scopes| ==> name !in scopes[k]
      {
        i := i - 1;
        if name in scopes[i] {
          scopes := scopes[i := scopes[i][name := value]];
          forall n: string
            ensures Binders(scopes, n) == Binders(old(scopes), n)
            ensures Walk(scopes, n) == if n == name then Some(value) else Walk(old(scopes), n)
          {
            BindersUpdate(old(scopes), i, scopes[i], n);
            WalkUpdate(old(scopes), i, name, value, n);
          }
          return;
        }
      }
      BindVar(name, value);
      forall n {
        WalkUpdate(old(scopes), |old(scopes)| - 1, name, value, n);
      }
    }

    /** `push_path_segment`. */
    method PushPathSegment(segment: string)
      requires Valid()
      modifies `path, `cachedPathPrefix
      ensures path == old(path) + [segment]
      ensures cachedPathPrefix == Pushed(old(cachedPathPrefix), segment) == Join(path)
      ensures segment != "" || old(path) != [] ==> Valid()
    {
      PushKeepsPrefix(path, segment);
      if cachedPathPrefix != "" {
        cachedPathPrefix := cachedPathPrefix + ".";
      }
      cachedPathPrefix := cachedPathPrefix + segment;
      path := path + [segment];
      assert path[..|path| - 1] == old(path);
    }

    /** `pop_path_segment`: the segment's length is cut off, and then a dot if there is one. */
    method PopPathSegment()
      requires Valid()
      modifies `path, `cachedPathPrefix
      ensures Valid() && path == if old(path) == [] then [] else old(path)[..|old(path)| - 1]
    {
      if path == [] {
        return;
      }
      var segment := path[|path| - 1];
      path := path[..|path| - 1];
      var newLen := if |cachedPathPrefix| >= |segment| then |cachedPathPrefix| - |segment| else 0;
      assert cachedPathPrefix[..newLen] == if path == [] then "" else Join(path) + ".";
      cachedPathPrefix := cachedPathPrefix[..newLen];
      if cachedPathPrefix != "" && cachedPathPrefix[|cachedPathPrefix| - 1] == '.' {
        cachedPathPrefix := cachedPathPrefix[..|cachedPathPrefix| - 1];
      }
    }
  }
}
