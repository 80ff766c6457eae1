/** The "see more" loop of scrapePublic.js (lines 236-267): on a listing
    page, keep clicking the `Δες περισσότερα` button until it is gone and the
    viewport is at the bottom of the page. The loop has no iteration cap; the
    page's answers are a stream of observations, one per pass, and a run
    that exhausts the stream has simply not stopped yet. */
module Pagination {

  /** What one pass of the loop observes: whether `page.$(SEE_MORE_SELECTOR)`
      found the button, whether `innerHeight + scrollY >= scrollHeight` holds
      (read only when the button is absent), whether `seeMore.click` threw,
      and whether `boundingBox()` returned a box (read only after a throw). */
  datatype Probe = Probe(button: bool, atBottom: bool, clickThrows: bool, hasBox: bool)

  /** What one pass does. `Rescan`: no button and not at the bottom, so
      `continue`. `Stop`: no button and at the bottom, so `break`. `Click`: a
      click was attempted; `boxClick` is the mouse click at the box's centre
      made after the click threw. */
  datatype Pass = Rescan | Stop | Click(boxClick: bool)

  /** The exit test of the loop. */
  predicate Exits(p: Probe) {
    !p.button && p.atBottom
  }

  /** Some observation exits the loop: the page eventually shows no button
      with the viewport at the bottom. */
  predicate Settles(probes: seq<Probe>)
    decreases |probes|
  {
    probes != [] && (Exits(probes[0]) || Settles(probes[1..]))
  }

  /** `Settles` holds exactly when some observation exits. */
  lemma {:induction false} SettlesSomewhere(probes: seq<Probe>)
    ensures Settles(probes) <==> exists k :: 0 <= k < |probes| && Exits(probes[k])
    decreases |probes|
  {
    if probes != [] {
      SettlesSomewhere(probes[1..]);
      if exists k :: 0 <= k < |probes| && Exits(probes[k]) {
        var k :| 0 <= k < |probes| && Exits(probes[k]);
        if k > 0 { assert Exits(probes[1..][k - 1]); }
      }
      if exists k :: 0 <= k < |probes[1..]| && Exits(probes[1..][k]) {
        var k :| 0 <= k < |probes[1..]| && Exits(probes[1..][k]);
        assert Exits(probes[k + 1]);
      }
    }
  }

  /** One pass of the loop body. */
  function PassOf(p: Probe): (a: Pass)
    ensures a == Stop <==> Exits(p)
    ensures a.Click? <==> p.button
    ensures a.Click? ==> (a.boxClick <==> p.clickThrows && p.hasBox)
  {
    if !p.button then (if p.atBottom then Stop else Rescan)
    else Click(p.clickThrows && p.hasBox)
  }

  /** The passes the loop makes on the observations `probes`: one per probe,
      up to and including the first that exits. */
  function Drive(probes: seq<Probe>): (r: seq<Pass>)
    ensures |r| <= |probes|
    ensures forall k :: 0 <= k < |r| ==> r[k] == PassOf(probes[k])
    ensures forall k :: 0 <= k < |r| - 1 ==> r[k] != Stop
    ensures |r| < |probes| ==> r != [] && r[|r| - 1] == Stop
    decreases |probes|
  {
    if probes == [] then []
    else if Exits(probes[0]) then [Stop]
    else [PassOf(probes[0])] + Drive(probes[1..])
  }

  /** The loop stops exactly when some observation shows no button at the
      bottom of the page, and it stops at the first such observation. */
  lemma {:induction false} DriveStopsAtFirstExit(probes: seq<Probe>)
    ensures var r := Drive(probes);
            (r != [] && r[|r| - 1] == Stop) <==> exists k :: 0 <= k < |probes| && Exits(probes[k])
    ensures var r := Drive(probes);
            r != [] && r[|r| - 1] == Stop ==> forall k :: 0 <= k < |r| - 1 ==> !Exits(probes[k])
    decreases |probes|
  {
    if probes != [] && !Exits(probes[0]) {
      DriveStopsAtFirstExit(probes[1..]);
      var r := Drive(probes);
      assert r[1..] == Drive(probes[1..]);
      if exists k :: 0 <= k < |probes| && Exits(probes[k]) {
        var k :| 0 <= k < |probes| && Exits(probes[k]);
        assert Exits(probes[1..][k - 1]);
      }
      if exists k :: 0 <= k < |probes[1..]| && Exits(probes[1..][k]) {
        var k :| 0 <= k < |probes[1..]| && Exits(probes[1..][k]);
        assert Exits(probes[k + 1]);
      }
    }
  }

  /** On a page whose button is there for exactly `k` passes and which then
      shows no button at the bottom, the loop clicks `k` times and stops on
      pass `k + 1`. */
  lemma {:induction false} SaturatesAfterClicks(probes: seq<Probe>, k: nat)
    requires k < |probes| && Exits(probes[k])
    requires forall j :: 0 <= j < k ==> probes[j].button
    ensures |Drive(probes)| == k + 1 && Drive(probes)[k] == Stop
    ensures forall j :: 0 <= j < k ==> Drive(probes)[j].Click?
    decreases k
  {
    if k > 0 {
      assert forall j :: 0 <= j < k - 1 ==> probes[1..][j] == probes[j + 1];
      SaturatesAfterClicks(probes[1..], k - 1);
    }
  }

  /** A pass with the button present never ends the loop, and always
      attempts a click; the fallback click happens only when the click threw
      and a box exists. */
  lemma ButtonMeansClick(probes: seq<Probe>, k: nat)
    requires k < |Drive(probes)| && probes[k].button
    ensures Drive(probes)[k].Click?
    ensures Drive(probes)[k].boxClick ==> probes[k].clickThrows && probes[k].hasBox
    ensures k + 1 < |probes| ==> k + 1 < |Drive(probes)|
  {
  }

  /** `Drive` is the only sequence of passes that follows the observations,
      has no `Stop` before its end, and ends either at a `Stop` or when the
      observations run out. */
  lemma {:induction false} DriveUnique(probes: seq<Probe>, passes: seq<Pass>)
    requires |passes| <= |probes|
    requires forall k :: 0 <= k < |passes| ==> passes[k] == PassOf(probes[k])
    requires forall k :: 0 <= k < |passes| - 1 ==> passes[k] != Stop
    requires |passes| == |probes| || (passes != [] && passes[|passes| - 1] == Stop)
    ensures passes == Drive(probes)
    decreases |probes|
  {
    if probes != [] {
      if Exits(probes[0]) {
        assert passes[0] == Stop;
      } else {
        assert passes[0] != Stop;
        DriveUnique(probes[1..], passes[1..]);
        assert passes == [passes[0]] + passes[1..];
      }
    }
  }

  /** The loop itself: `passes` is what each pass did, `stopped` whether it
      reached `break` before the observations ran out. */
  method SeeMoreLoop(probes: seq<Probe>) returns (passes: seq<Pass>, stopped: bool)
    ensures passes == Drive(probes)
    ensures stopped <==> passes != [] && passes[|passes| - 1] == Stop
    ensures stopped ==> Exits(probes[|passes| - 1])
    ensures !stopped ==> |passes| == |probes|
    ensures stopped <==> Settles(probes)
  {
    passes, stopped := [], false;
    var i := 0;
    while i < |probes|
      invariant 0 <= i <= |probes| && |passes| == i
      invariant forall k :: 0 <= k < i ==> passes[k] == PassOf(probes[k]) && passes[k] != Stop
    {
      var pass := PassOf(probes[i]);
      passes := passes + [pass];
      if pass == Stop {
        stopped := true;
        break;
      }
      i := i + 1;
    }
    DriveUnique(probes, passes);
    DriveStopsAtFirstExit(probes);
    SettlesSomewhere(probes);
  }
}
