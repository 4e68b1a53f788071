/** The provider fallback gate of media_engine.py: a failure may fall back to the next provider only after
    every exception behind it was inspected. */
module Fallback {
  import opened Prelude
  import opened ExceptionChain

  datatype Class =
    | UnsupportedSource | SourceUnavailable | RateLimited | InvalidMedia | SourceBlocked | ContentUnavailable
    | OtherClass(name: string)

  predicate Retryable(c: Class) {
    !c.OtherClass?
  }

  /** The type tests the gate makes on one exception. */
  datatype Facts = Facts(
    forbidden: bool,          // carries a true fallback_forbidden
    cancelled: bool,          // KeyboardInterrupt, SystemExit, PermissionError, either CancelledError
    programming: bool,        // AssertionError … TypeError
    osError: bool,            // OSError
    transportOs: bool,        // ConnectionError, TimeoutError or urllib's HTTPError
    postprocessing: bool,     // PostProcessingError
    extractor: bool,          // ExtractorError
    expected: bool,           // its `expected` flag
    jsonCause: bool,          // its `cause` is a JSONDecodeError
    contentTooShort: bool,
    httpError: bool,
    transport: bool,
    download: bool)           // DownloadError

  type World = nat -> Facts

  predicate ProviderExtractor(f: Facts) {
    f.extractor && (f.expected || f.jsonCause)
  }

  predicate FromProvider(f: Facts) {
    f.contentTooShort || f.download || f.extractor || f.httpError || f.transport
  }

  predicate ProviderMarked(f: Facts) {
    f.contentTooShort || f.httpError || f.transport || ProviderExtractor(f)
  }

  /** Survives every rejection test of provider_fallback_allowed. */
  predicate PassesGate(f: Facts) {
    !f.forbidden && !f.cancelled && !f.programming && (f.osError ==> f.transportOs)
  }

  /** Survives the rejection tests of _classified_provider_failure. */
  predicate PassesClassifier(f: Facts) {
    !f.postprocessing && (f.extractor ==> ProviderExtractor(f))
  }

  datatype Failure = Failure(class_: Class, forbidden: bool)

  /** provider_fallback_allowed over the chain of `start`: the original when one is given, else the failure. */
  method FallbackAllowed(links: Links, world: World, failure: Failure, start: nat) returns (allowed: bool)
    ensures allowed <==>
      && !failure.forbidden && !failure.class_.OtherClass?
      && forall n :: n in Chain(links, start) ==>
           && !world(n).forbidden && !world(n).cancelled && !world(n).programming
           && (world(n).osError ==> world(n).transportOs)
  {
    if failure.forbidden || failure.class_.OtherClass? {
      return false;
    }
    var chain := Traverse(links, start);
    for i := 0 to |chain|
      invariant forall j :: 0 <= j < i ==> PassesGate(world(chain[j]))
    {
      var current := world(chain[i]);
      if current.forbidden {
        return false;
      }
      if current.cancelled {
        return false;
      }
      if current.programming {
        return false;
      }
      if current.osError && !current.transportOs {
        return false;
      }
    }
    return true;
  }

  /** _classified_provider_failure: the class is upgraded for bare transport errors, and the failure starts
      forbidden and is cleared only at the very end. */
  method ClassifiedFailure(links: Links, world: World, exc: nat, classified: Class, guardMoved: bool)
    returns (failure: Failure)
    ensures failure.class_ ==
      if classified.InvalidMedia?
        && (exists n :: n in Chain(links, exc) && (world(n).contentTooShort || world(n).transport))
      then SourceUnavailable else classified
    ensures !failure.forbidden <==>
      && |Chain(links, exc)| < 64 && !guardMoved && !failure.class_.OtherClass?
      && (var f := world(exc); f.contentTooShort || f.download || f.extractor || f.httpError || f.transport)
      && (forall n :: n in Chain(links, exc) ==>
            var f := world(n);
            && !f.forbidden && !f.cancelled && !f.programming && (f.osError ==> f.transportOs)
            && !f.postprocessing && (f.extractor ==> f.expected || f.jsonCause))
      && (exists n :: n in Chain(links, exc) &&
            var f := world(n);
            f.contentTooShort || f.httpError || f.transport || (f.extractor && (f.expected || f.jsonCause)))
  {
    var chain := Traverse(links, exc);
    var class_ := classified;
    if class_.InvalidMedia? && exists n :: n in chain && (world(n).contentTooShort || world(n).transport) {
      class_ := SourceUnavailable;
    }
    failure := Failure(class_, true);
    if |chain| >= 64 || guardMoved {
      return;
    }
    if !FromProvider(world(exc)) {
      return;
    }
    if exists n :: n in chain && (world(n).postprocessing || (world(n).extractor && !ProviderExtractor(world(n)))) {
      return;
    }
    if !exists n :: n in chain && ProviderMarked(world(n)) {
      return;
    }
    failure := Failure(class_, false);
    var allowed := FallbackAllowed(links, world, failure, exc);
    if !allowed {
      failure := Failure(class_, true);
    }
  }

  /** What a cleared failure promises about `exc`. */
  ghost predicate Inspected(links: Links, world: World, exc: nat) {
    forall n :: Reachable(links, exc, n) ==> PassesClassifier(world(n)) && PassesGate(world(n))
  }

  /** A failure is cleared only after complete inspection: every exception reachable from the original passed
      every rejection test. And it is refused only for a reason: 64 or more exceptions, a guard event, a
      foreign type, a rejected or unmarked chain, or a class that is not retryable. */
  lemma ClearedMeansInspected(links: Links, world: World, exc: nat, all: set<nat>)
    requires forall n :: n in all <==> Reachable(links, exc, n)
    ensures
      (&& |Chain(links, exc)| < LIMIT
       && forall n :: n in Chain(links, exc) ==> PassesClassifier(world(n)) && PassesGate(world(n)))
      <==> |all| < LIMIT && Inspected(links, world, exc)
    ensures |all| < LIMIT ==>
      ((exists n :: n in Chain(links, exc) && ProviderMarked(world(n)))
       <==> (exists n :: Reachable(links, exc, n) && ProviderMarked(world(n))))
  {
    var chain := Chain(links, exc);
    ChainIsSound(links, exc);
    DistinctSize(chain);
    var found := Members(chain);
    SubsetSize(found, all);
    CompleteIffItFits(links, exc, all);
    if |chain| < LIMIT {
      assert found == all;
    }
  }

  /** The gate on its own inspects everything exactly when at most 64 exceptions are reachable
      (CompleteIffItFits). Past that it can allow a fallback that a reachable exception forbids: here exception
      n is caused by n + 1 and only exception 64 forbids. */
  lemma GateAloneCanMiss(world: World)
    requires forall n :: PassesGate(world(n)) <==> n != 64
    ensures var links: Links := n => [Some(n + 1)];
      && Reachable(links, 0, 64) && !PassesGate(world(64))
      && forall n :: n in Chain(links, 0) ==> PassesGate(world(n))
  {
    var links: Links := n => [Some(n + 1)];
    LineChain(links, 0, []);
    var path := seq(65, i requires 0 <= i => i as nat);
    assert IsPath(links, path) && path[0] == 0 && path[|path| - 1] == 64;
  }

  lemma {:induction false} LineChain(links: Links, k: nat, chain: seq<nat>)
    requires forall n :: links(n) == [Some(n + 1)]
    requires k <= LIMIT && |chain| == k && forall i :: 0 <= i < k ==> chain[i] == i
    ensures var out := Walk(links, [Some(k)], chain); |out| == LIMIT && forall i :: 0 <= i < LIMIT ==> out[i] == i
    decreases LIMIT - k
  {
    if k < LIMIT {
      assert [Some(k)][..0] + links(k) == [Some(k + 1)];
      LineChain(links, k + 1, chain + [k]);
    }
  }

  /** Raised from its original, a cleared failure reaches the gate again with at most one exception more, so
      the second inspection is complete as well. */
  lemma RaisedFailureIsInspected(links: Links, world: World, failure: nat, original: nat, all: set<nat>)
    requires forall n :: n in all <==> Reachable(links, original, n)
    requires |all| < LIMIT && failure !in all
    requires Some(original) in links(failure)
    requires forall item :: item in links(failure) ==> item.None? || item == Some(original)
    ensures forall n :: Reachable(links, failure, n) ==> n in Chain(links, failure)
  {
    var more := all + {failure};
    RootIsReachable(links, original);
    forall n | Reachable(links, failure, n)
      ensures n in more
    {
      var path :| IsPath(links, path) && path[0] == failure && path[|path| - 1] == n;
      if |path| > 1 {
        assert Some(path[1]) in links(path[0]);
        assert IsPath(links, path[1..]) && path[1..][0] == original && path[1..][|path| - 2] == n;
      }
    }
    forall n | n in more
      ensures Reachable(links, failure, n)
    {
      RootIsReachable(links, failure);
      if n != failure {
        var path :| IsPath(links, path) && path[0] == original && path[|path| - 1] == n;
        var longer := [failure] + path;
        assert IsPath(links, longer) && longer[0] == failure && longer[|longer| - 1] == n;
      }
    }
    CompleteIffItFits(links, failure, more);
  }
}
