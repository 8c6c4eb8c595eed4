/** The admin API's listing of live actions, optionally narrowed to the
    names that start with a given prefix. */
module ActionsApi {
  import opened Common

  /** The names among `names` that start with `prefix`, in their order. */
  function WithPrefix(names: seq<string>, prefix: string): (r: seq<string>)
    ensures |r| <= |names|
  {
    if names == [] then []
    else
      var rest := WithPrefix(names[..|names| - 1], prefix);
      if StartsWith(names[|names| - 1], prefix) then rest + [names[|names| - 1]] else rest
  }

  /** `actions_list(name)` over the live action names, in the order the
      registry holds them: all of them for an empty name, otherwise the
      ones starting with it. */
  function ActionsList(live: seq<string>, name: string): seq<string> {
    if |name| > 0 then WithPrefix(live, name) else live
  }

  /** The listed names are exactly the live names that start with the
      name asked for. */
  lemma {:induction false} WithPrefixMembers(names: seq<string>, prefix: string)
    ensures forall a :: a in WithPrefix(names, prefix) <==> a in names && StartsWith(a, prefix)
    decreases |names|
  {
    if names != [] {
      var init := names[..|names| - 1];
      WithPrefixMembers(init, prefix);
      assert names == init + [names[|names| - 1]];
    }
  }

  /** Filtering a concatenation filters each part: the listing keeps the
      relative order of the live names. */
  lemma {:induction false} WithPrefixAppend(a: seq<string>, b: seq<string>, prefix: string)
    ensures WithPrefix(a + b, prefix) == WithPrefix(a, prefix) + WithPrefix(b, prefix)
    decreases |b|
  {
    if b == [] {
      assert a + b == a;
    } else {
      var init := b[..|b| - 1];
      assert (a + b)[..|a + b| - 1] == a + init;
      WithPrefixAppend(a, init, prefix);
    }
  }

  /** An empty name lists every live action in order; every listed name
      is a live one; with a non-empty name exactly the live names with
      that prefix are listed. */
  lemma ActionsListSpec(live: seq<string>, name: string)
    ensures name == "" ==> ActionsList(live, name) == live
    ensures forall a :: a in ActionsList(live, name) ==> a in live
    ensures |name| > 0 ==> forall a :: a in ActionsList(live, name) <==> a in live && StartsWith(a, name)
  {
    WithPrefixMembers(live, name);
  }
}
