/** The registry of accepted rule names and the depth limit (Go's package globals
    `validObjectNames` and `maxDepthLimit`), made an explicit object. */
module NameRegistry {
  import opened Wrappers
  import opened Objects

  /** ASCII case folding of one character. */
  function FoldChar(c: char): char
  {
    if 'A' <= c <= 'Z' then (c as int + 32) as char else c
  }

  /** `strings.EqualFold`, with ASCII case folding in place of Unicode simple folding. */
  predicate EqualFold(a: string, b: string)
    ensures EqualFold(a, b) ==> |a| == |b|
    ensures a == b ==> EqualFold(a, b)
  {
    |a| == |b| && (a == [] || (FoldChar(a[0]) == FoldChar(b[0]) && EqualFold(a[1..], b[1..])))
  }

  /** The entries that survive `RemoveObjectName(name)`: those that do not fold to `name`. */
  function Without(names: seq<string>, name: string): (r: seq<string>)
    ensures |r| <= |names|
  {
    if names == [] then []
    else
      var last := names[|names| - 1];
      assert names == names[..|names| - 1] + [last];
      Without(names[..|names| - 1], name) + (if EqualFold(last, name) then [] else [last])
  }

  /** An entry survives removal exactly when it was registered and does not fold to `name`. */
  lemma {:induction false} WithoutMembers(names: seq<string>, name: string, x: string)
    ensures x in Without(names, name) <==> x in names && !EqualFold(x, name)
  {
    if names != [] {
      var init := names[..|names| - 1];
      WithoutMembers(init, name, x);
      assert names == init + [names[|names| - 1]];
    }
  }

  /** Removal works entry by entry, so it keeps the surviving entries in their order. */
  lemma {:induction false} WithoutConcat(a: seq<string>, b: seq<string>, name: string)
    ensures Without(a + b, name) == Without(a, name) + Without(b, name)
  {
    if b != [] {
      var b' := b[..|b| - 1];
      assert (a + b)[..|a + b| - 1] == a + b';
      WithoutConcat(a, b', name);
    } else {
      assert a + b == a;
    }
  }

  /** Removing a name that no entry folds to leaves the registry as it was. */
  lemma {:induction false} WithoutNoMatch(names: seq<string>, name: string)
    requires forall i :: 0 <= i < |names| ==> !EqualFold(names[i], name)
    ensures Without(names, name) == names
  {
    if names != [] {
      WithoutNoMatch(names[..|names| - 1], name);
      assert names == names[..|names| - 1] + [names[|names| - 1]];
    }
  }

  class Registry {
    /** The accepted names, in registration order; duplicates are kept. */
    var names: seq<string>
    /** The largest accepted node level; any integer, not validated. */
    var maxDepth: int

    /** The registry as the package starts: no names, depth limit 2. */
    constructor ()
      ensures names == [] && maxDepth == 2
    {
      names := [];
      maxDepth := 2;
    }

    method SetMaxDepthLimit(limit: int)
      modifies this
      ensures maxDepth == limit && names == old(names)
    {
      maxDepth := limit;
    }

    /** Appends every given name, in order, without removing duplicates. */
    method AddObjectName(newNames: seq<string>)
      modifies this
      ensures names == old(names) + newNames && maxDepth == old(maxDepth)
    {
      if |newNames| > 0 {
        names := names + newNames;
      }
    }

    /** Drops every entry that equals `name` up to case, keeping the others in order. */
    method RemoveObjectName(name: string)
      modifies this
      ensures names == Without(old(names), name) && maxDepth == old(maxDepth)
    {
      var result: seq<string> := [];
      var i := 0;
      while i < |names|
        invariant 0 <= i <= |names|
        invariant result == Without(names[..i], name)
      {
        assert names[..i + 1][..i] == names[..i];
        if !EqualFold(names[i], name) {
          result := result + [names[i]];
        }
        i := i + 1;
      }
      assert names[..i] == names;
      names := result;
    }

    /** Exact, case-sensitive membership; a missing key yields `NotFound` naming the key. */
    method IsSupported(key: string) returns (err: Option<ParseError>)
      ensures err.None? <==> key in names
      ensures err.Some? ==> err.value == NotFound(key)
    {
      var i := 0;
      while i < |names|
        invariant 0 <= i <= |names|
        invariant forall j :: 0 <= j < i ==> names[j] != key
      {
        if key == names[i] {
          return None;
        }
        i := i + 1;
      }
      return Some(NotFound(key));
    }
  }
}
