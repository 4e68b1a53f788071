/** exception_chain: the bounded traversal of the links between exceptions. Exceptions are numbered objects;
    a link that holds anything but an exception is None. */
module ExceptionChain {
  import opened Prelude

  const LIMIT := 64

  /** The links of each exception in the order they are pushed: cause, context, the library attributes, and
      the middle of an exc_info triple when there is one. */
  type Links = nat -> seq<Option<nat>>

  ghost predicate IsPath(links: Links, path: seq<nat>) {
    |path| >= 1 && forall i :: 0 <= i < |path| - 1 ==> Some(path[i + 1]) in links(path[i])
  }

  ghost predicate Reachable(links: Links, root: nat, n: nat) {
    exists path :: IsPath(links, path) && path[0] == root && path[|path| - 1] == n
  }

  /** The worklist loop as a function: `pending` is a stack whose top is its last element. */
  function Walk(links: Links, pending: seq<Option<nat>>, chain: seq<nat>): seq<nat>
    requires |chain| <= LIMIT
    decreases LIMIT - |chain|, |pending|
  {
    if pending == [] || |chain| == LIMIT then chain
    else
      var item, rest := pending[|pending| - 1], pending[..|pending| - 1];
      if item.None? || item.value in chain then Walk(links, rest, chain)
      else Walk(links, rest + links(item.value), chain + [item.value])
  }

  function Chain(links: Links, root: nat): seq<nat> {
    Walk(links, [Some(root)], [])
  }

  predicate Distinct(chain: seq<nat>) {
    forall i, j :: 0 <= i < j < |chain| ==> chain[i] != chain[j]
  }

  function Members(chain: seq<nat>): set<nat> {
    set n | n in chain
  }

  /** What holds of every state of the traversal. */
  ghost predicate Sound(links: Links, root: nat, pending: seq<Option<nat>>, chain: seq<nat>) {
    && |chain| <= LIMIT && Distinct(chain)
    && (forall n :: n in chain ==> Reachable(links, root, n))
    && (forall n: nat :: Some(n) in pending ==> Reachable(links, root, n))
    && (root in chain || Some(root) in pending)
    && (forall m: nat, n: nat :: m in chain && Some(n) in links(m) ==> n in chain || Some(n) in pending)
  }

  lemma LinkIsReachable(links: Links, root: nat, m: nat, n: nat)
    requires Reachable(links, root, m) && Some(n) in links(m)
    ensures Reachable(links, root, n)
  {
    var path :| IsPath(links, path) && path[0] == root && path[|path| - 1] == m;
    var longer := path + [n];
    assert IsPath(links, longer) && longer[0] == root && longer[|longer| - 1] == n;
  }

  lemma RootIsReachable(links: Links, root: nat)
    ensures Reachable(links, root, root)
  {
    assert IsPath(links, [root]) && [root][0] == root;
  }

  lemma VisitIsSound(links: Links, root: nat, pending: seq<Option<nat>>, chain: seq<nat>, item: nat)
    requires Sound(links, root, pending + [Some(item)], chain) && |chain| < LIMIT && item !in chain
    ensures Sound(links, root, pending + links(item), chain + [item])
  {
    var more := pending + links(item);
    assert Some(item) in pending + [Some(item)];
    forall n: nat | Some(n) in more
      ensures Reachable(links, root, n)
    {
      if Some(n) in pending {
        assert Some(n) in pending + [Some(item)];
      } else {
        LinkIsReachable(links, root, item, n);
      }
    }
  }

  /** The traversal ends, without duplicates, inside the limit and inside the reachable set; when it ends
      below the limit it has everything reachable. */
  method Traverse(links: Links, root: nat) returns (chain: seq<nat>)
    ensures chain == Chain(links, root)
    ensures |chain| <= LIMIT && Distinct(chain)
    ensures forall n :: n in chain ==> Reachable(links, root, n)
    ensures |chain| < LIMIT ==> forall n :: Reachable(links, root, n) ==> n in chain
  {
    chain := [];
    var pending := [Some(root)];
    var seen := {};
    RootIsReachable(links, root);
    while pending != [] && |chain| < 64
      invariant Sound(links, root, pending, chain)
      invariant seen == Members(chain)
      invariant Walk(links, pending, chain) == Chain(links, root)
      decreases LIMIT - |chain|, |pending|
    {
      var item := pending[|pending| - 1];
      ghost var before := pending;
      pending := pending[..|pending| - 1];
      assert before == pending + [item];
      if item.None? || item.value in seen {
        continue;
      }
      seen := seen + {item.value};
      VisitIsSound(links, root, pending, chain, item.value);
      chain := chain + [item.value];
      pending := pending + links(item.value);
    }
    if |chain| < LIMIT {
      ClosedHasEverything(links, root, chain);
    }
  }

  /** A set that holds the root and everything its members link to holds everything reachable. */
  lemma ClosedHasEverything(links: Links, root: nat, chain: seq<nat>)
    requires root in chain && forall m: nat, n: nat :: m in chain && Some(n) in links(m) ==> n in chain
    ensures forall n :: Reachable(links, root, n) ==> n in chain
  {
    forall n | Reachable(links, root, n)
      ensures n in chain
    {
      var path :| IsPath(links, path) && path[0] == root && path[|path| - 1] == n;
      AlongPath(links, chain, path);
    }
  }

  lemma {:induction false} AlongPath(links: Links, chain: seq<nat>, path: seq<nat>)
    requires forall m: nat, n: nat :: m in chain && Some(n) in links(m) ==> n in chain
    requires IsPath(links, path) && path[0] in chain
    ensures path[|path| - 1] in chain
  {
    if |path| > 1 {
      assert Some(path[1]) in links(path[0]);
      AlongPath(links, chain, path[1..]);
    }
  }

  lemma {:induction false} WalkIsSound(links: Links, root: nat, pending: seq<Option<nat>>, chain: seq<nat>)
    requires Sound(links, root, pending, chain)
    ensures var out := Walk(links, pending, chain);
      && |out| <= LIMIT && Distinct(out)
      && (forall n :: n in out ==> Reachable(links, root, n))
      && (|out| < LIMIT ==> forall n :: Reachable(links, root, n) ==> n in out)
    decreases LIMIT - |chain|, |pending|
  {
    if pending == [] {
      ClosedHasEverything(links, root, chain);
    } else if |chain| < LIMIT {
      var item, rest := pending[|pending| - 1], pending[..|pending| - 1];
      assert pending == rest + [item];
      if item.None? || item.value in chain {
        WalkIsSound(links, root, rest, chain);
      } else {
        VisitIsSound(links, root, rest, chain, item.value);
        WalkIsSound(links, root, rest + links(item.value), chain + [item.value]);
      }
    }
  }

  lemma ChainIsSound(links: Links, root: nat)
    ensures var chain := Chain(links, root);
      && |chain| <= LIMIT && Distinct(chain)
      && (forall n :: n in chain ==> Reachable(links, root, n))
      && (|chain| < LIMIT ==> forall n :: Reachable(links, root, n) ==> n in chain)
  {
    RootIsReachable(links, root);
    WalkIsSound(links, root, [Some(root)], []);
  }

  lemma {:induction false} DistinctSize(chain: seq<nat>)
    requires Distinct(chain)
    ensures |Members(chain)| == |chain|
  {
    if chain == [] {
      assert Members(chain) == {};
    } else {
      var init, last := chain[..|chain| - 1], chain[|chain| - 1];
      assert chain == init + [last];
      DistinctSize(init);
      assert last !in Members(init);
      assert Members(chain) == Members(init) + {last};
    }
  }

  /** The chain is complete exactly when no more than 64 exceptions are reachable. */
  lemma CompleteIffItFits(links: Links, root: nat, all: set<nat>)
    requires forall n :: n in all <==> Reachable(links, root, n)
    ensures (forall n :: n in all ==> n in Chain(links, root)) <==> |all| <= LIMIT
  {
    var chain := Chain(links, root);
    ChainIsSound(links, root);
    DistinctSize(chain);
    var found := Members(chain);
    SubsetSize(found, all);
    if forall n :: n in all ==> n in chain {
      assert all <= found;
      SubsetSize(all, found);
    } else {
      assert |chain| == LIMIT && found != all;
    }
  }

  // ----- the order of the traversal -----

  /** The last link to an exception that was not visited yet. */
  function LastFresh(items: seq<Option<nat>>, visited: seq<nat>): Option<nat> {
    if items == [] then None
    else
      var last := items[|items| - 1];
      if last.Some? && last.value !in visited then last else LastFresh(items[..|items| - 1], visited)
  }

  lemma {:induction false} WalkExtends(links: Links, pending: seq<Option<nat>>, chain: seq<nat>)
    requires |chain| <= LIMIT
    ensures chain <= Walk(links, pending, chain)
    decreases LIMIT - |chain|, |pending|
  {
    if pending != [] && |chain| < LIMIT {
      var item, rest := pending[|pending| - 1], pending[..|pending| - 1];
      if item.None? || item.value in chain {
        WalkExtends(links, rest, chain);
      } else {
        WalkExtends(links, rest + links(item.value), chain + [item.value]);
      }
    }
  }

  lemma {:induction false} FreshIsNext(links: Links, rest: seq<Option<nat>>, items: seq<Option<nat>>, chain: seq<nat>)
    requires |chain| < LIMIT && LastFresh(items, chain).Some?
    ensures chain + [LastFresh(items, chain).value] <= Walk(links, rest + items, chain)
    decreases |items|
  {
    var pending, last := rest + items, items[|items| - 1];
    assert pending[|pending| - 1] == last && pending[..|pending| - 1] == rest + items[..|items| - 1];
    if last.Some? && last.value !in chain {
      WalkExtends(links, rest + items[..|items| - 1] + links(last.value), chain + [last.value]);
    } else {
      FreshIsNext(links, rest, items[..|items| - 1], chain);
    }
  }

  lemma {:induction false} WalkIsDepthFirst(links: Links, pending: seq<Option<nat>>, chain: seq<nat>, i: nat)
    requires |chain| <= LIMIT && |chain| <= i < |Walk(links, pending, chain)| && i + 1 < LIMIT
    requires var out := Walk(links, pending, chain); LastFresh(links(out[i]), out[..i + 1]).Some?
    ensures var out := Walk(links, pending, chain);
      i + 1 < |out| && Some(out[i + 1]) == LastFresh(links(out[i]), out[..i + 1])
    decreases LIMIT - |chain|, |pending|
  {
    WalkExtends(links, pending, chain);
    var item, rest := pending[|pending| - 1], pending[..|pending| - 1];
    if item.None? || item.value in chain {
      WalkIsDepthFirst(links, rest, chain, i);
    } else if i > |chain| {
      WalkIsDepthFirst(links, rest + links(item.value), chain + [item.value], i);
    } else {
      var longer := chain + [item.value];
      WalkExtends(links, rest + links(item.value), longer);
      assert Walk(links, pending, chain)[..i + 1] == longer;
      FreshIsNext(links, rest, links(item.value), longer);
    }
  }

  /** The root comes first, and as long as the limit allows, each exception is followed by the last of its own links
      that was not visited yet. */
  lemma ChainIsDepthFirst(links: Links, root: nat, i: nat)
    ensures Chain(links, root) != [] && Chain(links, root)[0] == root
    ensures var chain := Chain(links, root);
      i < |chain| && i + 1 < LIMIT && LastFresh(links(chain[i]), chain[..i + 1]).Some? ==>
        i + 1 < |chain| && Some(chain[i + 1]) == LastFresh(links(chain[i]), chain[..i + 1])
  {
    assert LastFresh([Some(root)], []) == Some(root) && [] + [Some(root)] == [Some(root)];
    FreshIsNext(links, [], [Some(root)], []);
    var chain := Chain(links, root);
    if i < |chain| && i + 1 < LIMIT && LastFresh(links(chain[i]), chain[..i + 1]).Some? {
      WalkIsDepthFirst(links, [Some(root)], [], i);
    }
  }
}
