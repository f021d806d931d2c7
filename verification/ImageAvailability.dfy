/** Checking the availability of container images under one deadline for the whole request.

    Times are in nanoseconds. What the commands answer and how long everything takes is an oracle, one
    `Probe` per image; the clock only moves by those durations. Sizes and rates are reals.
 */
module ImageAvailability {
  import opened Common

  /** `before` is the time from granting the timeout to the start of the pull (asking for the local
      image), `pull` the time of the pull if there is one, `after` the time until the next image. */
  datatype Probe = Probe(existsBefore: bool, before: nat, pullExitCode: int, pull: nat, size: Option<real>, after: nat)

  datatype Request = Request(timeout: int, images: seq<string>)
  datatype Availability = Availability(name: string, success: bool, sizeBytes: real, time: real, downloadRate: real)

  const SECOND := 1_000_000_000
  const FAILED_TO_PULL := 2

  /** Whole seconds of a duration, rounded toward zero. */
  function Seconds(ns: int): int {
    if ns >= 0 then ns / SECOND else -((-ns) / SECOND)
  }

  function Nanoseconds(seconds: int): int {
    seconds * SECOND
  }

  function MBps(bytes: real, seconds: real): (r: real) {
    if seconds == 0.0 then 0.0 else bytes / 1_000_000.0 / seconds
  }

  /** The answer for one image, given the seconds left for pulling it. */
  function Handle(dry: bool, granted: int, image: string, p: Probe): (a: Availability)
    ensures a.name == image
    ensures dry ==> a.sizeBytes == 400_000_000.0 && a.time == 10.0 && a.downloadRate == 100.0
    ensures a.success <==> dry || (granted > 0 && p.pullExitCode == 0 && (p.existsBefore || p.size.Some?))
    ensures !dry && (!a.success || p.existsBefore) ==> a.sizeBytes == a.time == a.downloadRate == 0.0
    ensures !dry && a.success && !p.existsBefore ==>
              && Some(a.sizeBytes) == p.size && a.time * 1_000_000_000.0 == p.pull as real
              && if p.pull == 0 then a.downloadRate == 0.0 else a.downloadRate * a.time * 1_000_000.0 == a.sizeBytes
  {
    if dry then Availability(image, true, 400_000_000.0, 10.0, 100.0)
    else if granted <= 0 || p.pullExitCode != 0 then Availability(image, false, 0.0, 0.0, 0.0)
    else if p.existsBefore then Availability(image, true, 0.0, 0.0, 0.0)
    else if p.size.None? then Availability(image, false, 0.0, 0.0, 0.0)
    else
      var time := p.pull as real / SECOND as real;
      Availability(image, true, p.size.value, time, MBps(p.size.value, time))
  }

  /** Whether the image is pulled at all. */
  predicate Pulls(dry: bool, granted: int) {
    !dry && granted > 0
  }

  function Elapsed(dry: bool, granted: int, p: Probe): nat {
    p.before + (if Pulls(dry, granted) then p.pull else 0) + p.after
  }

  /** The seconds granted to each image when the clock reads `now` and the deadline is `finish`. */
  function Grants(dry: bool, now: int, finish: int, probes: seq<Probe>): (grants: seq<int>)
    ensures |grants| == |probes|
    decreases |probes|
  {
    if probes == [] then []
    else
      var granted := Seconds(finish - now);
      [granted] + Grants(dry, now + Elapsed(dry, granted, probes[0]), finish, probes[1..])
  }

  /** `lag` is the time from setting the deadline to granting the first timeout. */
  method Run(dry: bool, request: Option<Request>, start: int, lag: nat, probes: seq<Probe>)
    returns (response: seq<Availability>, exitCode: int)
    requires request.Some? ==> |probes| == |request.value.images|
    ensures request.None? ==> exitCode == -1 && response == []
    ensures request.Some? ==> Answered(dry, request.value, start, lag, probes, response)
    ensures request.Some? ==> exitCode == 0 || exitCode == 2
    ensures request.Some? ==> (exitCode == 2 <==> exists i :: 0 <= i < |response| && !response[i].success)
    ensures request.Some? && dry ==> exitCode == 0
  {
    hide Handle, Seconds, Nanoseconds, Elapsed, Clock, Grants, AllSucceeded, Answered;
    if request.None? {
      return [], -1;
    }
    response, exitCode := [], 0;
    NobodyFailed();
    var images := request.value.images;
    var now, finish := start + lag, start + Nanoseconds(request.value.timeout);
    ClockStarts(dry, now, finish, probes);
    for k := 0 to |images|
      invariant |response| == k
      invariant now == Clock(dry, start + lag, finish, probes, k)
      invariant forall i | 0 <= i < k ::
                  response[i] == Handle(dry, Seconds(finish - Clock(dry, start + lag, finish, probes, i)),
                                        images[i], probes[i])
      invariant exitCode == if AllSucceeded(response) then 0 else FAILED_TO_PULL
    {
      var granted := Seconds(finish - now);
      var imageResponse := Handle(dry, granted, images[k], probes[k]);
      ClockMoves(dry, start + lag, finish, probes, k);
      now := now + Elapsed(dry, granted, probes[k]);
      SucceededAppend(response, imageResponse);
      response := response + [imageResponse];
      if !imageResponse.success {
        exitCode := FAILED_TO_PULL;
      }
    }
    AnsweredByClock(dry, request.value, start, lag, probes, response);
    SomebodyFailed(response);
    if dry { DrySucceeds(request.value, start, lag, probes, response); }
  }

  /** The reading of the clock when image i is handled. */
  ghost function Clock(dry: bool, now: int, finish: int, probes: seq<Probe>, i: nat): int
    requires i <= |probes|
  {
    if i == 0 then now
    else
      var last := Clock(dry, now, finish, probes, i - 1);
      last + Elapsed(dry, Seconds(finish - last), probes[i - 1])
  }

  lemma ClockStarts(dry: bool, now: int, finish: int, probes: seq<Probe>)
    ensures Clock(dry, now, finish, probes, 0) == now
  {
  }

  lemma ClockMoves(dry: bool, now: int, finish: int, probes: seq<Probe>, i: nat)
    requires i < |probes|
    ensures var last := Clock(dry, now, finish, probes, i);
            Clock(dry, now, finish, probes, i + 1) == last + Elapsed(dry, Seconds(finish - last), probes[i])
  {
  }

  lemma {:induction false} ClockTail(dry: bool, now: int, finish: int, probes: seq<Probe>, i: nat)
    requires 0 < i <= |probes|
    ensures var next := now + Elapsed(dry, Seconds(finish - now), probes[0]);
            Clock(dry, now, finish, probes, i) == Clock(dry, next, finish, probes[1..], i - 1)
  {
    hide Seconds, Elapsed;
    if i > 1 { ClockTail(dry, now, finish, probes, i - 1); }
  }

  /** An image is granted what the clock leaves. */
  lemma {:induction false} GrantAt(dry: bool, now: int, finish: int, probes: seq<Probe>, i: nat)
    requires i < |probes|
    ensures Grants(dry, now, finish, probes)[i] == Seconds(finish - Clock(dry, now, finish, probes, i))
    decreases |probes|
  {
    hide Seconds, Elapsed;
    if i > 0 {
      var next := now + Elapsed(dry, Seconds(finish - now), probes[0]);
      GrantAt(dry, next, finish, probes[1..], i - 1);
      ClockTail(dry, now, finish, probes, i);
    }
  }

  lemma SomebodyFailed(response: seq<Availability>)
    ensures !AllSucceeded(response) <==> exists i :: 0 <= i < |response| && !response[i].success
  {
  }

  lemma NobodyFailed()
    ensures AllSucceeded([])
  {
  }

  predicate AllSucceeded(response: seq<Availability>) {
    forall i | 0 <= i < |response| :: response[i].success
  }

  lemma SucceededAppend(response: seq<Availability>, a: Availability)
    ensures AllSucceeded(response + [a]) <==> AllSucceeded(response) && a.success
  {
    var longer := response + [a];
    assert longer[|response|] == a;
    assert forall i | 0 <= i < |response| :: longer[i] == response[i];
  }

  /** One answer per image, in order, each under the seconds left for it. */
  ghost predicate Answered(dry: bool, r: Request, start: int, lag: nat, probes: seq<Probe>, response: seq<Availability>)
    requires |probes| == |r.images|
  {
    && |response| == |r.images|
    && var grants := Grants(dry, start + lag, start + Nanoseconds(r.timeout), probes);
       forall i | 0 <= i < |r.images| ::
         response[i] == Handle(dry, grants[i], r.images[i], probes[i]) && response[i].name == r.images[i]
  }

  lemma AnsweredByClock(dry: bool, r: Request, start: int, lag: nat, probes: seq<Probe>, response: seq<Availability>)
    requires |probes| == |r.images| == |response|
    requires var now, finish := start + lag, start + Nanoseconds(r.timeout);
             forall i | 0 <= i < |r.images| ::
               response[i] == Handle(dry, Seconds(finish - Clock(dry, now, finish, probes, i)), r.images[i], probes[i])
    ensures Answered(dry, r, start, lag, probes, response)
  {
    hide Handle, Seconds, Nanoseconds, Clock, Grants;
    var now, finish := start + lag, start + Nanoseconds(r.timeout);
    var grants := Grants(dry, now, finish, probes);
    forall i | 0 <= i < |r.images|
      ensures response[i] == Handle(dry, grants[i], r.images[i], probes[i])
    {
      GrantAt(dry, now, finish, probes, i);
    }
  }

  lemma DrySucceeds(r: Request, start: int, lag: nat, probes: seq<Probe>, response: seq<Availability>)
    requires |probes| == |r.images| && Answered(true, r, start, lag, probes, response)
    ensures AllSucceeded(response)
  {
  }

  // ----- the time all pulls take -----

  /** Every pull lasts no longer than the seconds it was granted. */
  ghost predicate PullsObey(dry: bool, grants: seq<int>, probes: seq<Probe>)
    requires |grants| == |probes|
  {
    forall i | 0 <= i < |probes| && Pulls(dry, grants[i]) :: probes[i].pull <= grants[i] * SECOND
  }

  ghost function TotalPull(dry: bool, grants: seq<int>, probes: seq<Probe>): nat
    requires |grants| == |probes|
  {
    if probes == [] then 0
    else (if Pulls(dry, grants[0]) then probes[0].pull else 0) + TotalPull(dry, grants[1..], probes[1..])
  }

  lemma {:induction false} PullTimeBounded(dry: bool, now: int, finish: int, probes: seq<Probe>)
    requires PullsObey(dry, Grants(dry, now, finish, probes), probes)
    ensures TotalPull(dry, Grants(dry, now, finish, probes), probes) <= if finish >= now then finish - now else 0
    decreases |probes|
  {
    if probes != [] {
      var grants := Grants(dry, now, finish, probes);
      var next := now + Elapsed(dry, grants[0], probes[0]);
      assert grants[1..] == Grants(dry, next, finish, probes[1..]);
      assert forall i | 0 <= i < |probes[1..]| :: probes[1..][i] == probes[i + 1] && grants[1..][i] == grants[i + 1];
      PullTimeBounded(dry, next, finish, probes[1..]);
    }
  }

  /** If every pull obeys its timeout, all pulls together take no longer than the request allows. */
  lemma RequestTimeoutHolds(dry: bool, timeout: nat, start: int, lag: nat, probes: seq<Probe>)
    requires PullsObey(dry, Grants(dry, start + lag, start + Nanoseconds(timeout), probes), probes)
    ensures TotalPull(dry, Grants(dry, start + lag, start + Nanoseconds(timeout), probes), probes) <=
      Nanoseconds(timeout)
  {
    hide Grants;
    PullTimeBounded(dry, start + lag, start + Nanoseconds(timeout), probes);
  }

  /** The granted timeouts never increase, whatever the commands take. */
  lemma {:induction false} GrantsDecrease(dry: bool, now: int, finish: int, probes: seq<Probe>, i: nat, j: nat)
    requires i < j < |probes|
    ensures var grants := Grants(dry, now, finish, probes); grants[j] <= grants[i] <= Seconds(finish - now)
    decreases |probes|
  {
    var grants := Grants(dry, now, finish, probes);
    var next := now + Elapsed(dry, grants[0], probes[0]);
    assert Seconds(finish - next) <= Seconds(finish - now);
    if i > 0 {
      GrantsDecrease(dry, next, finish, probes[1..], i - 1, j - 1);
    } else if j > 1 {
      GrantsDecrease(dry, next, finish, probes[1..], 0, j - 1);
    }
  }

  // ----- the deadline -----

  /** The time left when image i is handled. */
  ghost function LeftAt(left: int, probes: seq<Probe>, i: nat): int
    requires i < |probes|
    decreases |probes|
  {
    if i == 0 then left else LeftAt(left - Elapsed(false, Seconds(left), probes[0]), probes[1..], i - 1)
  }

  lemma {:induction false} GrantIs(now: int, finish: int, probes: seq<Probe>, i: nat)
    requires i < |probes|
    ensures Grants(false, now, finish, probes)[i] == Seconds(LeftAt(finish - now, probes, i))
    decreases |probes|
  {
    if i > 0 {
      GrantIs(now + Elapsed(false, Seconds(finish - now), probes[0]), finish, probes[1..], i - 1);
    }
  }

  /** The pull of image i, if there is one, ends by the deadline. */
  ghost predicate EndsInTime(left: int, probes: seq<Probe>, i: nat)
    requires i < |probes|
  {
    var l := LeftAt(left, probes, i);
    Seconds(l) > 0 ==> probes[i].before + probes[i].pull <= l
  }

  ghost predicate NoneLate(left: int, probes: seq<Probe>) {
    forall i: nat | i < |probes| :: EndsInTime(left, probes, i)
  }

  /** A pull that obeys its timeout may still end after the deadline, but by no more than the time
      that passed between granting the timeout and starting the pull. */
  lemma PullEndsBy(now: int, finish: int, probes: seq<Probe>, i: nat)
    requires i < |probes|
    requires Pulls(false, Grants(false, now, finish, probes)[i])
    requires probes[i].pull <= Grants(false, now, finish, probes)[i] * SECOND
    ensures probes[i].before + probes[i].pull <= LeftAt(finish - now, probes, i) + probes[i].before
  {
    GrantIs(now, finish, probes, i);
  }

  /** The same images with other pull times. */
  function WithPulls(probes: seq<Probe>, pulls: seq<nat>): (r: seq<Probe>)
    requires |pulls| == |probes|
    ensures |r| == |probes| && forall i | 0 <= i < |r| :: r[i] == probes[i].(pull := pulls[i])
  {
    seq(|probes|, i requires 0 <= i < |probes| => probes[i].(pull := pulls[i]))
  }

  /** The most time that can be left for image i: what is left if no pull takes any. */
  function MostLeft(left: int, probes: seq<Probe>, i: nat): int
    requires i < |probes|
    decreases |probes|
  {
    if i == 0 then left else MostLeft(left - probes[0].before - probes[0].after, probes[1..], i - 1)
  }

  lemma {:induction false} MostLeftShift(left: int, d: int, probes: seq<Probe>, i: nat)
    requires i < |probes|
    ensures MostLeft(left - d, probes, i) == MostLeft(left, probes, i) - d
    decreases |probes|
  {
    if i > 0 {
      MostLeftShift(left - probes[0].before - probes[0].after, d, probes[1..], i - 1);
    }
  }

  lemma {:induction false} LeftAtMost(left: int, probes: seq<Probe>, pulls: seq<nat>, i: nat)
    requires |pulls| == |probes| && i < |probes|
    ensures LeftAt(left, WithPulls(probes, pulls), i) <= MostLeft(left, probes, i)
    decreases |probes|
  {
    if i > 0 {
      var ps, p := WithPulls(probes, pulls), probes[0];
      var pulled := Elapsed(false, Seconds(left), ps[0]) - p.before - p.after;
      assert ps[1..] == WithPulls(probes[1..], pulls[1..]);
      LeftAtMost(left - Elapsed(false, Seconds(left), ps[0]), probes[1..], pulls[1..], i - 1);
      MostLeftShift(left - p.before - p.after, pulled, probes[1..], i - 1);
    }
  }

  /** If the pulls before image i take no time, it has the most time. */
  lemma {:induction false} LeftWithoutPulls(left: int, probes: seq<Probe>, pulls: seq<nat>, i: nat)
    requires |pulls| == |probes| && i < |probes| && forall j | 0 <= j < i :: pulls[j] == 0
    ensures LeftAt(left, WithPulls(probes, pulls), i) == MostLeft(left, probes, i)
    decreases |probes|
  {
    if i > 0 {
      var ps := WithPulls(probes, pulls);
      assert ps[1..] == WithPulls(probes[1..], pulls[1..]);
      LeftWithoutPulls(left - Elapsed(false, Seconds(left), ps[0]), probes[1..], pulls[1..], i - 1);
    }
  }

  /** The time an image can spend before its pull without being late: the first has the fraction of a
      second that rounding its timeout leaves over, the others have none. */
  ghost predicate Prompt(left: int, probes: seq<Probe>, i: nat)
    requires i < |probes|
  {
    MostLeft(left, probes, i) >= SECOND ==> probes[i].before <= if i == 0 then left % SECOND else 0
  }

  ghost predicate AllPrompt(left: int, probes: seq<Probe>) {
    forall i: nat | i < |probes| :: Prompt(left, probes, i)
  }

  ghost predicate Obedient(now: int, finish: int, probes: seq<Probe>) {
    PullsObey(false, Grants(false, now, finish, probes), probes)
  }

  lemma PromptIsInTime(now: int, finish: int, probes: seq<Probe>, pulls: seq<nat>, i: nat)
    requires |pulls| == |probes| && i < |probes| && Prompt(finish - now, probes, i)
    requires Obedient(now, finish, WithPulls(probes, pulls))
    ensures EndsInTime(finish - now, WithPulls(probes, pulls), i)
  {
    hide Grants, LeftAt, MostLeft;
    var ps := WithPulls(probes, pulls);
    GrantIs(now, finish, ps, i);
    LeftAtMost(finish - now, probes, pulls, i);
    if i == 0 { assert LeftAt(finish - now, ps, 0) == finish - now by { FirstLeft(finish - now, ps); } }
  }

  lemma FirstLeft(left: int, probes: seq<Probe>)
    requires probes != []
    ensures LeftAt(left, probes, 0) == left == MostLeft(left, probes, 0)
  {
  }

  /** Pull times that make image i late: the first pull uses up the fraction of a second, image i uses
      all it is granted, the others take no time. */
  function LatePulls(n: nat, i: nat, first: nat, last: nat): (pulls: seq<nat>)
    ensures |pulls| == n
    ensures forall j | 0 <= j < n :: pulls[j] == if j == i then last else if j == 0 then first else 0
  {
    seq(n, j => if j == i then last else if j == 0 then first else 0)
  }

  lemma LateLeft(left: int, probes: seq<Probe>, i: nat, last: nat) returns (first: nat)
    requires i < |probes| && MostLeft(left, probes, i) >= SECOND
    ensures first < SECOND <= left || i == 0
    ensures var l := LeftAt(left, WithPulls(probes, LatePulls(|probes|, i, first, last)), i);
            l >= SECOND && l % SECOND == if i == 0 then left % SECOND else 0
  {
    first := MostLeft(left, probes, i) % SECOND;
    if i > 0 {
      MostLeftAtMost(left, probes, i);
      var pulls, p := LatePulls(|probes|, i, first, last), probes[0];
      var ps := WithPulls(probes, pulls);
      assert ps[1..] == WithPulls(probes[1..], pulls[1..]);
      assert Elapsed(false, Seconds(left), ps[0]) == p.before + first + p.after;
      LeftWithoutPulls(left - p.before - first - p.after, probes[1..], pulls[1..], i - 1);
      MostLeftShift(left - p.before - p.after, first, probes[1..], i - 1);
    }
  }

  lemma {:induction false} MostLeftAtMost(left: int, probes: seq<Probe>, i: nat)
    requires i < |probes|
    ensures MostLeft(left, probes, i) <= left
    decreases |probes|
  {
    if i > 0 { MostLeftAtMost(left - probes[0].before - probes[0].after, probes[1..], i - 1); }
  }

  /** An image that is not prompt can be late. */
  lemma NotPromptIsLate(now: int, finish: int, probes: seq<Probe>, i: nat) returns (pulls: seq<nat>)
    requires i < |probes| && !Prompt(finish - now, probes, i)
    ensures |pulls| == |probes| && Obedient(now, finish, WithPulls(probes, pulls))
    ensures !EndsInTime(finish - now, WithPulls(probes, pulls), i)
  {
    hide Grants, LeftAt, MostLeft;
    var left, n := finish - now, |probes|;
    var first := LateLeft(left, probes, i, 0);
    var l := LeftAt(left, WithPulls(probes, LatePulls(n, i, first, 0)), i);
    var last := Seconds(l) * SECOND;
    pulls := LatePulls(n, i, first, last);
    LeftIgnoresLater(left, probes, LatePulls(n, i, first, 0), pulls, i);
    var ps := WithPulls(probes, pulls);
    forall j | 0 <= j < n && Pulls(false, Grants(false, now, finish, ps)[j])
      ensures ps[j].pull <= Grants(false, now, finish, ps)[j] * SECOND
    {
      GrantIs(now, finish, ps, j);
      if j == 0 { FirstLeft(left, ps); }
    }
  }

  lemma {:induction false} LeftIgnoresLater(left: int, probes: seq<Probe>, pulls: seq<nat>, pulls': seq<nat>, i: nat)
    requires |pulls| == |pulls'| == |probes| && i < |probes| && forall j | 0 <= j < i :: pulls[j] == pulls'[j]
    ensures LeftAt(left, WithPulls(probes, pulls), i) == LeftAt(left, WithPulls(probes, pulls'), i)
    decreases |probes|
  {
    if i > 0 {
      var ps, ps' := WithPulls(probes, pulls), WithPulls(probes, pulls');
      assert ps[1..] == WithPulls(probes[1..], pulls[1..]) && ps'[1..] == WithPulls(probes[1..], pulls'[1..]);
      LeftIgnoresLater(left - Elapsed(false, Seconds(left), ps[0]), probes[1..], pulls[1..], pulls'[1..], i - 1);
    }
  }

  /** Whatever obedient time the pulls take, none of the request is late. */
  ghost predicate NeverLate(now: int, finish: int, probes: seq<Probe>) {
    forall pulls: seq<nat> | |pulls| == |probes| && Obedient(now, finish, WithPulls(probes, pulls)) ::
      NoneLate(finish - now, WithPulls(probes, pulls))
  }

  /** No pull of a request can be late, if all obey their timeouts, exactly if every image that may
      still have a second left is prompt. Neither side depends on how long pulls take. */
  lemma NeverLateIff(timeout: int, start: int, lag: nat, probes: seq<Probe>)
    ensures NeverLate(start + lag, start + Nanoseconds(timeout), probes)
            <==> AllPrompt(Nanoseconds(timeout) - lag, probes)
  {
    hide Prompt, EndsInTime, Obedient, WithPulls, Nanoseconds;
    var now, finish := start + lag, start + Nanoseconds(timeout);
    var left := Nanoseconds(timeout) - lag;
    if AllPrompt(left, probes) {
      forall pulls: seq<nat> | |pulls| == |probes| && Obedient(now, finish, WithPulls(probes, pulls))
        ensures NoneLate(left, WithPulls(probes, pulls))
      {
        forall i: nat | i < |probes|
          ensures EndsInTime(left, WithPulls(probes, pulls), i)
        {
          PromptIsInTime(now, finish, probes, pulls, i);
        }
      }
    } else {
      var i: nat :| i < |probes| && !Prompt(left, probes, i);
      var pulls := NotPromptIsLate(now, finish, probes, i);
      assert !NoneLate(left, WithPulls(probes, pulls));
    }
  }

  /** If the first timeout is granted at once, prompt means no time at all before the pull. */
  lemma PromptWithoutLag(timeout: int, probes: seq<Probe>, i: nat)
    requires i < |probes|
    ensures Prompt(Nanoseconds(timeout), probes, i) <==>
            (MostLeft(Nanoseconds(timeout), probes, i) >= SECOND ==> probes[i].before == 0)
  {
    hide MostLeft;
    assert timeout * SECOND % SECOND == 0;
  }

  /** The lateness is real: half the time can go into asking whether the image is there. */
  lemma DeadlineCanPass()
    ensures var p := Probe(false, 5 * SECOND, 0, 10 * SECOND, None, 0);
            Obedient(0, 10 * SECOND, [p]) && !NoneLate(10 * SECOND, [p])
  {
    var p := Probe(false, 5 * SECOND, 0, 10 * SECOND, None, 0);
    assert Grants(false, 0, 10 * SECOND, [p])[0] == 10;
    assert !EndsInTime(10 * SECOND, [p], 0);
  }
}
