/** The loop shape the downloader uses twice, over master files
    (downloader/main.go:250-279) and over form 4 filings (downloader/main.go:59-120):
    items are handled one after another, each on the disk the previous one left;
    each contributes results that are appended; the first failure ends the loop
    with no results. */
module Loops {
  import opened Results
  import opened Cache

  /** The results so far, or the first error; the disk after; the downloads made. */
  datatype Run<T, E> = Run(result: Result<seq<T>, E>, disk: Disk, downloads: nat)

  /** Two runs in a row: the results of both in order, or the first error. */
  function Then<T, E>(first: Run<T, E>, next: Run<T, E>): (r: Run<T, E>)
    ensures r.result.Ok? <==> first.result.Ok? && next.result.Ok?
    ensures r.result.Ok? ==> r.result.value == first.result.value + next.result.value
    ensures first.result.Ok? ==> r.disk == next.disk && r.downloads == first.downloads + next.downloads
    ensures first.result.Err? ==> r == first
  {
    if first.result.Err? then first
    else Run(if next.result.Ok? then Ok(first.result.value + next.result.value) else Err(next.result.error),
             next.disk, first.downloads + next.downloads)
  }

  /** Three runs in a row may be grouped either way. */
  lemma ThenAssociative<T, E>(a: Run<T, E>, b: Run<T, E>, c: Run<T, E>)
    ensures Then(a, Then(b, c)) == Then(Then(a, b), c)
  {
    if a.result.Ok? && b.result.Ok? && c.result.Ok? {
      assert a.result.value + (b.result.value + c.result.value) == (a.result.value + b.result.value) + c.result.value;
    }
  }

  /** Handling `xs` one after another with `step`. */
  function Loop<X, T, E>(step: (Disk, X) -> Run<T, E>, disk: Disk, xs: seq<X>): Run<T, E>
    decreases |xs|
  {
    if |xs| == 0 then Run(Ok([]), disk, 0)
    else
      var first := step(disk, xs[0]);
      if first.result.Err? then first
      else Then(first, Loop(step, first.disk, xs[1..]))
  }

  /** A step that keeps what is stored. */
  ghost predicate KeepsStored<X(!new), T, E>(step: (Disk, X) -> Run<T, E>)
  {
    forall d: Disk, x: X :: Extends(d, step(d, x).disk)
  }

  /** A loop of steps that keep what is stored keeps it too. */
  lemma {:induction false} LoopExtends<X(!new), T, E>(step: (Disk, X) -> Run<T, E>, disk: Disk, xs: seq<X>)
    requires KeepsStored(step)
    ensures Extends(disk, Loop(step, disk, xs).disk)
    decreases |xs|
  {
    if |xs| > 0 {
      var first := step(disk, xs[0]);
      if first.result.Ok? {
        LoopExtends(step, first.disk, xs[1..]);
      }
    }
  }

  /** Looping over two runs of items is looping over the first and then, on the disk
      it left, over the second: results are appended in item order, and a failure in
      the first part ends everything. */
  lemma {:induction false} LoopAppend<X, T, E>(step: (Disk, X) -> Run<T, E>, disk: Disk, xs: seq<X>, ys: seq<X>)
    ensures var first := Loop(step, disk, xs);
            Loop(step, disk, xs + ys) == Then(first, Loop(step, first.disk, ys))
    decreases |xs|
  {
    if |xs| == 0 {
      assert xs + ys == ys;
      var next := Loop(step, disk, ys);
      if next.result.Ok? {
        assert [] + next.result.value == next.result.value;
      }
    } else {
      assert (xs + ys)[0] == xs[0];
      assert (xs + ys)[1..] == xs[1..] + ys;
      var first := step(disk, xs[0]);
      if first.result.Ok? {
        LoopAppend(step, first.disk, xs[1..], ys);
        var rest := Loop(step, first.disk, xs[1..]);
        ThenAssociative(first, rest, Loop(step, rest.disk, ys));
      }
    }
  }

  /** Each item paired with the cache path computed from it, and the URL to fill it from. */
  function Requests<X>(pathOf: X -> string, urlOf: X -> string, xs: seq<X>): (reqs: seq<(string, string)>)
    ensures |reqs| == |xs|
    ensures forall i :: 0 <= i < |xs| ==> reqs[i] == (pathOf(xs[i]), urlOf(xs[i]))
    decreases |xs|
  {
    if |xs| == 0 then [] else [(pathOf(xs[0]), urlOf(xs[0]))] + Requests(pathOf, urlOf, xs[1..])
  }

  /** A step that, whenever it succeeds, is a successful cache lookup of its item's path. */
  ghost predicate IsLookup<X(!new), T, E>(step: (Disk, X) -> Run<T, E>, env: Env, pathOf: X -> string, urlOf: X -> string)
  {
    forall d: Disk, x: X :: step(d, x).result.Ok? ==>
      var s := ReadThrough(env, d, pathOf(x), urlOf(x));
      s.result.Ok? && s.disk == step(d, x).disk && s.downloads == step(d, x).downloads
  }

  /** A successful loop of such steps is a successful run of cache lookups, with the
      same disk and downloads. */
  lemma {:induction false} LoopLooksUp<X(!new), T, E>(step: (Disk, X) -> Run<T, E>, env: Env, pathOf: X -> string,
                                                urlOf: X -> string, disk: Disk, xs: seq<X>)
    requires IsLookup(step, env, pathOf, urlOf)
    requires Loop(step, disk, xs).result.Ok?
    ensures var r := Loop(step, disk, xs);
            var s := LookupAll(env, disk, Requests(pathOf, urlOf, xs));
            s.results.Ok? && s.disk == r.disk && s.downloads == r.downloads
    decreases |xs|
  {
    if |xs| > 0 {
      var first := step(disk, xs[0]);
      LoopLooksUp(step, env, pathOf, urlOf, first.disk, xs[1..]);
      var reqs := Requests(pathOf, urlOf, xs);
      assert reqs[1..] == Requests(pathOf, urlOf, xs[1..]);
    }
  }

  /** A successful loop of lookups downloads each missing path once and no other:
      the downloads are the distinct paths that were not on disk. */
  lemma LoopDownloadsMissing<X(!new), T, E>(step: (Disk, X) -> Run<T, E>, env: Env, pathOf: X -> string,
                                      urlOf: X -> string, disk: Disk, xs: seq<X>)
    requires IsLookup(step, env, pathOf, urlOf)
    requires Loop(step, disk, xs).result.Ok?
    ensures Loop(step, disk, xs).downloads == |PathsOf(Requests(pathOf, urlOf, xs)) - disk.Keys|
  {
    LoopLooksUp(step, env, pathOf, urlOf, disk, xs);
    DownloadsAreMissingPaths(env, disk, Requests(pathOf, urlOf, xs));
  }

  /** A step whose single result is decided by what the disk holds under its item's path. */
  ghost predicate Decides<X(!new), T, E>(step: (Disk, X) -> Run<T, E>, pathOf: X -> string, decide: string -> Option<T>)
  {
    forall d: Disk, x: X :: step(d, x).result.Ok? ==>
      var r := step(d, x);
      pathOf(x) in r.disk && |r.result.value| == 1 && decide(r.disk[pathOf(x)]) == Some(r.result.value[0])
  }

  /** A successful loop of such steps gives one result per item, in order, each decided
      by what the final disk holds under the item's path. */
  lemma {:induction false} LoopDecided<X(!new), T, E>(step: (Disk, X) -> Run<T, E>, pathOf: X -> string,
                                                decide: string -> Option<T>, disk: Disk, xs: seq<X>)
    requires KeepsStored(step) && Decides(step, pathOf, decide)
    requires Loop(step, disk, xs).result.Ok?
    ensures var r := Loop(step, disk, xs);
            && |r.result.value| == |xs|
            && forall i :: 0 <= i < |xs| ==> pathOf(xs[i]) in r.disk && decide(r.disk[pathOf(xs[i])]) == Some(r.result.value[i])
    decreases |xs|
  {
    if |xs| > 0 {
      var first := step(disk, xs[0]);
      var rest := Loop(step, first.disk, xs[1..]);
      LoopDecided(step, pathOf, decide, first.disk, xs[1..]);
      LoopExtends(step, first.disk, xs[1..]);
      var r := Loop(step, disk, xs);
      assert r.result.value == first.result.value + rest.result.value;
      forall i | 0 <= i < |xs|
        ensures pathOf(xs[i]) in r.disk && decide(r.disk[pathOf(xs[i])]) == Some(r.result.value[i])
      {
        if i > 0 {
          assert xs[i] == xs[1..][i - 1];
        }
      }
    }
  }
}
