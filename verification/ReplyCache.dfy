/** The cache of step replies that the service already has.

    Step goroutines look a successful reply up before they post it, and store it after the service
    has accepted it; the poll loop flushes the cache when the service cannot be reached, and entries
    expire. Lookup, post and store are separate steps, so sends interleave freely. The service is
    seen through the last successful output it has accepted for each step type.
 */
module ReplyCache {

  datatype Reply = Reply(stepType: string, exitCode: int, output: string)

  // ----- the cache as the goroutines use it -----

  class Cache {
    var entries: map<string, string>

    constructor ()
      ensures entries == map[]
    {
      entries := map[];
    }

    method AlreadyExistsInService(stepType: string, value: string) returns (hit: bool)
      ensures hit <==> Hit(entries, stepType, value)
    {
      hit := stepType in entries && entries[stepType] == value;
    }

    method StoreInCache(stepType: string, value: string)
      modifies this
      ensures entries == old(entries)[stepType := value]
    {
      entries := entries[stepType := value];
    }

    method InvalidateCache()
      modifies this
      ensures entries == map[]
    {
      entries := map[];
    }
  }

  predicate Hit(cache: map<string, string>, stepType: string, value: string) {
    stepType in cache && cache[stepType] == value
  }

  /** What became of a post: acknowledged, refused, or accepted with the answer lost on the way. */
  datatype PostResult = Acknowledged | Refused | AckLost

  /** Sending one reply without interruption: whether it is posted, and the cache afterwards. */
  method SendStepReply(cache: Cache, reply: Reply, result: PostResult) returns (posted: bool)
    modifies cache
    ensures !posted <==> reply.exitCode == 0 && Hit(old(cache.entries), reply.stepType, reply.output)
    ensures cache.entries == if posted && result == Acknowledged && reply.exitCode == 0
                             then old(cache.entries)[reply.stepType := reply.output] else old(cache.entries)
  {
    posted := true;
    if reply.exitCode == 0 {
      var hit := cache.AlreadyExistsInService(reply.stepType, reply.output);
      if hit {
        return false;
      }
    }
    if result == Acknowledged && reply.exitCode == 0 {
      cache.StoreInCache(reply.stepType, reply.output);
    }
  }

  // ----- interleaved sends -----

  /** A suppressed send remembers how many replies the service had accepted by then. */
  datatype Phase = Looking | Posting | Storing | Suppressed(after: nat) | Finished

  datatype Send = Send(reply: Reply, phase: Phase)

  /** `view` is what the service holds; `ideal` is what it would hold if suppressed replies had been
      posted as well; `accepted` are all replies it has accepted. */
  datatype State = State(
    cache: map<string, string>, view: map<string, string>, ideal: map<string, string>,
    accepted: seq<Reply>, sends: seq<Send>)

  datatype Event =
    | Begin(reply: Reply)
    | Lookup(send: nat)
    | Post(send: nat, result: PostResult)
    | Store(send: nat)
    | Flush
    | Expire(stepType: string)

  /** What may happen: whether sends of one type may overlap, and whether acknowledgements get lost. */
  datatype Discipline = Discipline(overlap: bool, lostAcks: bool)

  function Init(): State {
    State(map[], map[], map[], [], [])
  }

  predicate Busy(send: Send, stepType: string) {
    send.reply.stepType == stepType && (send.phase.Looking? || send.phase.Posting? || send.phase.Storing?)
  }

  ghost predicate Enabled(d: Discipline, s: State, e: Event) {
    match e
    case Begin(reply) => d.overlap || forall i | 0 <= i < |s.sends| :: !Busy(s.sends[i], reply.stepType)
    case Lookup(i) => i < |s.sends| && s.sends[i].phase.Looking?
    case Post(i, result) => i < |s.sends| && s.sends[i].phase.Posting? && (result == AckLost ==> d.lostAcks)
    case Store(i) => i < |s.sends| && s.sends[i].phase.Storing?
    case Flush => true
    case Expire(_) => true
  }

  function WithPhase(s: State, i: nat, phase: Phase): State
    requires i < |s.sends|
  {
    s.(sends := s.sends[i := s.sends[i].(phase := phase)])
  }

  /** The service accepts a reply; a successful one becomes the last success of its type. */
  function Accept(s: State, reply: Reply): State {
    var t := s.(accepted := s.accepted + [reply]);
    if reply.exitCode == 0
    then t.(view := s.view[reply.stepType := reply.output], ideal := s.ideal[reply.stepType := reply.output])
    else t
  }

  function Apply(s: State, e: Event): State
    requires e.Lookup? || e.Post? || e.Store? ==> e.send < |s.sends|
  {
    match e
    case Begin(reply) => s.(sends := s.sends + [Send(reply, Looking)])
    case Lookup(i) =>
      var r := s.sends[i].reply;
      if r.exitCode == 0 && Hit(s.cache, r.stepType, r.output)
      then WithPhase(s.(ideal := s.ideal[r.stepType := r.output]), i, Suppressed(|s.accepted|))
      else WithPhase(s, i, Posting)
    case Post(i, result) =>
      var r := s.sends[i].reply;
      var t := WithPhase(s, i, if result == Acknowledged && r.exitCode == 0 then Storing else Finished);
      if result == Refused then t else Accept(t, r)
    case Store(i) =>
      var r := s.sends[i].reply;
      WithPhase(s.(cache := s.cache[r.stepType := r.output]), i, Finished)
    case Flush => s.(cache := map[])
    case Expire(stepType) => s.(cache := s.cache - {stepType})
  }

  /** A send that nobody interrupts, as its events one after the other. */
  function SendAlone(s: State, reply: Reply, result: PostResult): State {
    var i := |s.sends|;
    var looked := Apply(Apply(s, Begin(reply)), Lookup(i));
    if looked.sends[i].phase.Suppressed? then looked
    else
      var posted := Apply(looked, Post(i, result));
      if posted.sends[i].phase.Storing? then Apply(posted, Store(i)) else posted
  }

  /** It treats the cache as `SendStepReply` does, and posts when that does. */
  lemma SendAloneMatches(s: State, reply: Reply, result: PostResult)
    ensures var t := SendAlone(s, reply, result);
            var posted := !(reply.exitCode == 0 && Hit(s.cache, reply.stepType, reply.output));
            && t.cache == (if posted && result == Acknowledged && reply.exitCode == 0
                           then s.cache[reply.stepType := reply.output] else s.cache)
            && t.accepted == (if posted && result != Refused then s.accepted + [reply] else s.accepted)
            && (posted <==> !t.sends[|s.sends|].phase.Suppressed?)
  {
    var i := |s.sends|;
    var begun := Apply(s, Begin(reply));
    assert begun.sends[i] == Send(reply, Looking);
  }

  ghost predicate Valid(d: Discipline, s: State, events: seq<Event>)
    decreases |events|
  {
    events == [] || (Enabled(d, s, events[0]) && Valid(d, Apply(s, events[0]), events[1..]))
  }

  ghost function After(d: Discipline, s: State, events: seq<Event>): State
    requires Valid(d, s, events)
    decreases |events|
  {
    if events == [] then s else After(d, Apply(s, events[0]), events[1..])
  }

  ghost predicate Reachable(d: Discipline, s: State) {
    exists events :: Valid(d, Init(), events) && After(d, Init(), events) == s
  }

  // ----- what the cache and the service hold -----

  /** Some store among the events put this value into the cache. */
  ghost predicate StoredIn(d: Discipline, s: State, events: seq<Event>, stepType: string, value: string)
    requires Valid(d, s, events)
    decreases |events|
  {
    events != [] &&
    ( || (events[0].Store? && s.sends[events[0].send].reply.stepType == stepType
          && s.sends[events[0].send].reply.output == value)
      || StoredIn(d, Apply(s, events[0]), events[1..], stepType, value))
  }

  /** What is cached after some events was stored by one of them, or was cached before and nothing flushed
      the cache or expired it. */
  lemma {:induction false} CacheComesFrom(d: Discipline, s: State, events: seq<Event>, stepType: string)
    requires Valid(d, s, events) && stepType in After(d, s, events).cache
    ensures var value := After(d, s, events).cache[stepType];
            || StoredIn(d, s, events, stepType, value)
            || (Hit(s.cache, stepType, value) && Flush !in events && Expire(stepType) !in events)
    decreases |events|
  {
    if events != [] {
      CacheComesFrom(d, Apply(s, events[0]), events[1..], stepType);
      assert events == [events[0]] + events[1..];
    }
  }

  /** After a flush, and after the expiry of its type, a reply is suppressed only if one like it has been
      stored since. */
  lemma ForgottenIsPosted(d: Discipline, s: State, e: Event, events: seq<Event>, reply: Reply)
    requires e == Flush || e == Expire(reply.stepType)
    requires Valid(d, Apply(s, e), events)
    requires Hit(After(d, Apply(s, e), events).cache, reply.stepType, reply.output)
    ensures StoredIn(d, Apply(s, e), events, reply.stepType, reply.output)
  {
    CacheComesFrom(d, Apply(s, e), events, reply.stepType);
  }

  /** The last success of a type among the accepted replies. */
  ghost predicate LastSuccess(accepted: seq<Reply>, stepType: string, k: nat) {
    && k < |accepted| && accepted[k].stepType == stepType && accepted[k].exitCode == 0
    && forall j | k < j < |accepted| :: !(accepted[j].stepType == stepType && accepted[j].exitCode == 0)
  }

  ghost predicate ViewIs(s: State) {
    && (forall k: nat | k < |s.accepted| && s.accepted[k].exitCode == 0 :: s.accepted[k].stepType in s.view)
    && (forall t | t in s.view :: exists k: nat ::
          LastSuccess(s.accepted, t, k) && s.view[t] == s.accepted[k].output)
  }

  lemma AcceptKeepsView(s: State, r: Reply)
    requires ViewIs(s)
    ensures ViewIs(Accept(s, r))
  {
    var u := Accept(s, r);
    assert forall k | 0 <= k < |s.accepted| :: u.accepted[k] == s.accepted[k];
    forall t | t in u.view
      ensures exists k: nat :: LastSuccess(u.accepted, t, k) && u.view[t] == u.accepted[k].output
    {
      if r.exitCode == 0 && r.stepType == t {
        assert LastSuccess(u.accepted, t, |s.accepted|);
      } else {
        var k: nat :| LastSuccess(s.accepted, t, k) && s.view[t] == s.accepted[k].output;
        assert LastSuccess(u.accepted, t, k);
      }
    }
  }

  lemma ViewKept(d: Discipline, s: State, e: Event)
    requires ViewIs(s) && Enabled(d, s, e)
    ensures ViewIs(Apply(s, e))
  {
    if e.Post? && e.result != Refused {
      var t := WithPhase(s, e.send, Apply(s, e).sends[e.send].phase);
      assert t.view == s.view && t.accepted == s.accepted;
      SameView(s, t);
      AcceptKeepsView(t, s.sends[e.send].reply);
    } else {
      SameView(s, Apply(s, e));
    }
  }

  lemma SameView(s: State, t: State)
    requires ViewIs(s) && t.view == s.view && t.accepted == s.accepted
    ensures ViewIs(t)
  {
  }

  lemma {:induction false} ViewAlways(d: Discipline, s: State, events: seq<Event>)
    requires ViewIs(s) && Valid(d, s, events)
    ensures ViewIs(After(d, s, events))
    decreases |events|
  {
    if events != [] {
      ViewKept(d, s, events[0]);
      ViewAlways(d, Apply(s, events[0]), events[1..]);
    }
  }

  /** In every run the service holds, for each type, the output of the last success it accepted. */
  lemma ServiceHoldsLast(d: Discipline, s: State)
    requires Reachable(d, s)
    ensures ViewIs(s)
  {
    var events :| Valid(d, Init(), events) && After(d, Init(), events) == s;
    ViewAlways(d, Init(), events);
  }

  // ----- what holds in every interleaving -----

  /** A successful reply with this type and output is among the first `upto` accepted ones. */
  ghost predicate AcceptedSuccess(s: State, stepType: string, output: string, upto: nat) {
    exists k :: 0 <= k < upto && k < |s.accepted| && s.accepted[k] == Reply(stepType, 0, output)
  }

  ghost predicate Justified(s: State, send: Send) {
    match send.phase
    case Suppressed(n) => send.reply.exitCode == 0 && AcceptedSuccess(s, send.reply.stepType, send.reply.output, n)
    case Storing => send.reply.exitCode == 0 && AcceptedSuccess(s, send.reply.stepType, send.reply.output, |s.accepted|)
    case _ => true
  }

  ghost predicate Honest(s: State) {
    && (forall t | t in s.cache :: AcceptedSuccess(s, t, s.cache[t], |s.accepted|))
    && (forall i | 0 <= i < |s.sends| :: Justified(s, s.sends[i]))
  }

  lemma AcceptedStays(s: State, t: State, stepType: string, output: string, upto: nat)
    requires s.accepted <= t.accepted && AcceptedSuccess(s, stepType, output, upto)
    ensures AcceptedSuccess(t, stepType, output, upto)
    ensures AcceptedSuccess(t, stepType, output, |t.accepted|)
  {
  }

  lemma HonestKept(d: Discipline, s: State, e: Event)
    requires Honest(s) && Enabled(d, s, e)
    ensures Honest(Apply(s, e))
  {
    var t := Apply(s, e);
    assert s.accepted <= t.accepted;
    if e.Post? && e.result == Acknowledged && s.sends[e.send].reply.exitCode == 0 {
      assert t.accepted[|s.accepted|] == s.sends[e.send].reply;
    }
    hide AcceptedSuccess;
    forall k | k in t.cache
      ensures AcceptedSuccess(t, k, t.cache[k], |t.accepted|)
    {
      if e.Store? && k == s.sends[e.send].reply.stepType {
        assert Justified(s, s.sends[e.send]);
        AcceptedStays(s, t, k, t.cache[k], |s.accepted|);
      } else {
        AcceptedStays(s, t, k, s.cache[k], |s.accepted|);
      }
    }
    forall i | 0 <= i < |t.sends|
      ensures Justified(t, t.sends[i])
    {
      JustifiedKept(d, s, e, i);
    }
  }

  lemma JustifiedKept(d: Discipline, s: State, e: Event, i: nat)
    requires Honest(s) && Enabled(d, s, e) && i < |Apply(s, e).sends|
    ensures Justified(Apply(s, e), Apply(s, e).sends[i])
  {
    var t := Apply(s, e);
    var r := t.sends[i].reply;
    if i < |s.sends| && t.sends[i] == s.sends[i] {
      hide AcceptedSuccess;
      assert s.accepted <= t.accepted;
      assert Justified(s, s.sends[i]);
      match s.sends[i].phase
      case Suppressed(n) => AcceptedStays(s, t, r.stepType, r.output, n);
      case Storing => AcceptedStays(s, t, r.stepType, r.output, |s.accepted|);
      case _ =>
    } else if e.Post? && e.result == Acknowledged && r.exitCode == 0 {
      assert t.accepted[|s.accepted|] == Reply(r.stepType, 0, r.output);
    }
  }

  lemma {:induction false} HonestAlways(d: Discipline, s: State, events: seq<Event>)
    requires Honest(s) && Valid(d, s, events)
    ensures Honest(After(d, s, events))
    decreases |events|
  {
    if events != [] {
      HonestKept(d, s, events[0]);
      HonestAlways(d, Apply(s, events[0]), events[1..]);
    }
  }

  /** In every interleaving, even with overlapping sends and lost acknowledgements: a suppressed reply
      is successful and repeats a successful reply of its type that the service had accepted before;
      only such outputs are ever in the cache. */
  lemma SuppressionIsHonest(d: Discipline, s: State, i: nat)
    requires Reachable(d, s) && i < |s.sends|
    ensures match s.sends[i].phase
            case Suppressed(n) =>
              && s.sends[i].reply.exitCode == 0
              && (exists k :: 0 <= k < n && k < |s.accepted|
                   && s.accepted[k] == Reply(s.sends[i].reply.stepType, 0, s.sends[i].reply.output))
            case _ => true
    ensures forall t | t in s.cache :: AcceptedSuccess(s, t, s.cache[t], |s.accepted|)
  {
    var events :| Valid(d, Init(), events) && After(d, Init(), events) == s;
    HonestAlways(d, Init(), events);
    assert Justified(s, s.sends[i]);
  }

  // ----- when suppression is invisible -----

  /** Some send of the type has been acknowledged and has not stored its reply yet. */
  ghost predicate StoreDue(s: State, stepType: string) {
    exists i :: 0 <= i < |s.sends| && s.sends[i].reply.stepType == stepType && s.sends[i].phase.Storing?
  }

  ghost predicate OneAtATime(s: State) {
    forall i, j, t | 0 <= i < |s.sends| && 0 <= j < |s.sends| && Busy(s.sends[i], t) && Busy(s.sends[j], t) :: i == j
  }

  ghost predicate Agreement(s: State) {
    && s.ideal == s.view
    && (forall t | t in s.cache :: t in s.view && (StoreDue(s, t) || s.cache[t] == s.view[t]))
    && (forall i | 0 <= i < |s.sends| && s.sends[i].phase.Storing? ::
      Hit(s.view, s.sends[i].reply.stepType, s.sends[i].reply.output))
  }

  lemma OneAtATimeKept(d: Discipline, s: State, e: Event)
    requires !d.overlap && OneAtATime(s) && Enabled(d, s, e)
    ensures OneAtATime(Apply(s, e))
  {
    var t := Apply(s, e);
    if !e.Begin? {
      assert |t.sends| == |s.sends|;
      assert forall i, k | 0 <= i < |s.sends| && Busy(t.sends[i], k) :: Busy(s.sends[i], k);
    } else {
      assert forall i | 0 <= i < |s.sends| :: t.sends[i] == s.sends[i];
    }
  }

  lemma StoreDueKept(s: State, t: State, stepType: string, i: nat)
    requires StoreDue(s, stepType) && |s.sends| <= |t.sends|
    requires forall j | 0 <= j < |s.sends| && j != i :: t.sends[j] == s.sends[j]
    requires i < |s.sends| ==> s.sends[i].reply.stepType != stepType
    ensures StoreDue(t, stepType)
  {
    var j :| 0 <= j < |s.sends| && s.sends[j].reply.stepType == stepType && s.sends[j].phase.Storing?;
    assert t.sends[j] == s.sends[j];
  }

  lemma AgreementKept(d: Discipline, s: State, e: Event)
    requires d == Discipline(false, false)
    requires OneAtATime(s) && Agreement(s) && Enabled(d, s, e)
    ensures Agreement(Apply(s, e))
  {
    match e
    case Begin(reply) => AgreementBegin(s, reply);
    case Lookup(i) => AgreementLookup(s, i);
    case Post(i, result) => AgreementPost(s, i, result);
    case Store(i) => AgreementStore(s, i);
    case _ =>
      assert forall t :: StoreDue(s, t) ==> StoreDue(Apply(s, e), t);
  }

  lemma AgreementBegin(s: State, reply: Reply)
    requires Agreement(s)
    ensures Agreement(Apply(s, Begin(reply)))
  {
    var t := Apply(s, Begin(reply));
    forall k | k in t.cache
      ensures StoreDue(t, k) || t.cache[k] == t.view[k]
    {
      if StoreDue(s, k) { StoreDueKept(s, t, k, |s.sends|); }
    }
  }

  /** A lookup happens while no other send of the type is busy, so the cached value is up to date. */
  lemma AgreementLookup(s: State, i: nat)
    requires OneAtATime(s) && Agreement(s) && i < |s.sends| && s.sends[i].phase.Looking?
    ensures Agreement(Apply(s, Lookup(i)))
  {
    var t := Apply(s, Lookup(i));
    var r := s.sends[i].reply;
    assert Busy(s.sends[i], r.stepType);
    assert !StoreDue(s, r.stepType) by {
      if j :| 0 <= j < |s.sends| && s.sends[j].reply.stepType == r.stepType && s.sends[j].phase.Storing? {
        assert Busy(s.sends[j], r.stepType);
      }
    }
    forall k | k in t.cache
      ensures StoreDue(t, k) || t.cache[k] == t.view[k]
    {
      if k != r.stepType && StoreDue(s, k) { StoreDueKept(s, t, k, i); }
    }
    if r.exitCode == 0 && Hit(s.cache, r.stepType, r.output) {
      assert s.view[r.stepType] == r.output;
      assert t.ideal == t.view;
    }
  }

  lemma AgreementPost(s: State, i: nat, result: PostResult)
    requires OneAtATime(s) && Agreement(s) && i < |s.sends| && s.sends[i].phase.Posting? && result != AckLost
    ensures Agreement(Apply(s, Post(i, result)))
  {
    var t := Apply(s, Post(i, result));
    var r := s.sends[i].reply;
    assert Busy(s.sends[i], r.stepType);
    forall k | k in t.cache
      ensures k in t.view && (StoreDue(t, k) || t.cache[k] == t.view[k])
    {
      if result == Acknowledged && r.exitCode == 0 && k == r.stepType {
        assert t.sends[i].phase.Storing?;
      } else if StoreDue(s, k) {
        if k == r.stepType {
          var j :| 0 <= j < |s.sends| && s.sends[j].reply.stepType == k && s.sends[j].phase.Storing?;
          assert Busy(s.sends[j], k);
          assert false;
        }
        StoreDueKept(s, t, k, i);
      }
    }
    forall j | 0 <= j < |t.sends| && t.sends[j].phase.Storing?
      ensures Hit(t.view, t.sends[j].reply.stepType, t.sends[j].reply.output)
    {
      if j != i {
        assert Busy(s.sends[j], s.sends[j].reply.stepType);
      }
    }
  }

  lemma AgreementStore(s: State, i: nat)
    requires OneAtATime(s) && Agreement(s) && i < |s.sends| && s.sends[i].phase.Storing?
    ensures Agreement(Apply(s, Store(i)))
  {
    var t := Apply(s, Store(i));
    var r := s.sends[i].reply;
    forall k | k in t.cache
      ensures k in t.view && (StoreDue(t, k) || t.cache[k] == t.view[k])
    {
      if k != r.stepType && StoreDue(s, k) { StoreDueKept(s, t, k, i); }
    }
  }

  lemma {:induction false} AgreementAlways(d: Discipline, s: State, events: seq<Event>)
    requires d == Discipline(false, false)
    requires OneAtATime(s) && Agreement(s) && Valid(d, s, events)
    ensures Agreement(After(d, s, events))
    decreases |events|
  {
    if events != [] {
      OneAtATimeKept(d, s, events[0]);
      AgreementKept(d, s, events[0]);
      AgreementAlways(d, Apply(s, events[0]), events[1..]);
    }
  }

  /** If sends of one type do not overlap and no acknowledgement is lost, then a cached value is the
      last successful output of its type that the service accepted, unless the send that made it so
      is just about to store it; and the service holds what it would hold without the cache. */
  lemma CacheAgrees(s: State)
    requires Reachable(Discipline(false, false), s)
    ensures s.ideal == s.view
    ensures forall t | t in s.cache :: t in s.view && (StoreDue(s, t) || s.cache[t] == s.view[t])
  {
    var d := Discipline(false, false);
    var events :| Valid(d, Init(), events) && After(d, Init(), events) == s;
    AgreementAlways(d, Init(), events);
  }

  // ----- when it is not -----

  ghost predicate Invisible(d: Discipline) {
    forall s | Reachable(d, s) :: s.ideal == s.view
  }

  lemma {:induction false} Append(d: Discipline, s: State, events: seq<Event>, e: Event)
    requires Valid(d, s, events) && Enabled(d, After(d, s, events), e)
    ensures Valid(d, s, events + [e]) && After(d, s, events + [e]) == Apply(After(d, s, events), e)
    decreases |events|
  {
    if events == [] {
      assert events + [e] == [e];
      assert [e][1..] == [];
    } else {
      Append(d, Apply(s, events[0]), events[1..], e);
      assert (events + [e])[1..] == events[1..] + [e];
    }
  }

  lemma Next(d: Discipline, s: State, e: Event) returns (t: State)
    requires Reachable(d, s) && Enabled(d, s, e)
    ensures t == Apply(s, e) && Reachable(d, t)
  {
    t := Apply(s, e);
    var events :| Valid(d, Init(), events) && After(d, Init(), events) == s;
    Append(d, Init(), events, e);
  }

  lemma Start(d: Discipline) returns (s: State)
    ensures s == Init() && Reachable(d, s)
  {
    s := Init();
    assert Valid(d, s, []) && After(d, s, []) == s;
  }

  /** Two overlapping sends of a type can store their replies in the opposite order of their posts;
      a third reply is then suppressed although the service holds another output. */
  lemma OverlapShows(d: Discipline)
    requires d.overlap
    ensures !Invisible(d)
  {
    hide Reachable;
    var x, y := Reply("inventory", 0, "x"), Reply("inventory", 0, "y");
    var s := Start(d);
    s := Next(d, s, Begin(x));
    s := Next(d, s, Begin(y));
    s := Next(d, s, Lookup(0));
    s := Next(d, s, Lookup(1));
    s := Next(d, s, Post(0, Acknowledged));
    s := Next(d, s, Post(1, Acknowledged));
    s := Next(d, s, Store(1));
    s := Next(d, s, Store(0));
    assert s.cache["inventory"] == "x" && s.view["inventory"] == "y";
    s := Next(d, s, Begin(x));
    s := Next(d, s, Lookup(2));
    assert s.ideal["inventory"] == "x" && s.view["inventory"] == "y";
  }

  /** A reply that was accepted but not acknowledged leaves the cache behind the service. */
  lemma LostAckShows(d: Discipline)
    requires d.lostAcks
    ensures !Invisible(d)
  {
    hide Reachable;
    var x, y := Reply("inventory", 0, "x"), Reply("inventory", 0, "y");
    var s := Start(d);
    s := Next(d, s, Begin(x));
    s := Next(d, s, Lookup(0));
    s := Next(d, s, Post(0, Acknowledged));
    s := Next(d, s, Store(0));
    s := Next(d, s, Begin(y));
    s := Next(d, s, Lookup(1));
    s := Next(d, s, Post(1, AckLost));
    assert s.cache["inventory"] == "x" && s.view["inventory"] == "y";
    s := Next(d, s, Begin(x));
    s := Next(d, s, Lookup(2));
    assert s.ideal["inventory"] == "x" && s.view["inventory"] == "y";
  }

  /** Suppression is invisible to the service in every run exactly when sends of one type never
      overlap and no acknowledgement is lost. */
  lemma InvisibleIff(d: Discipline)
    ensures Invisible(d) <==> !d.overlap && !d.lostAcks
  {
    if d.overlap {
      OverlapShows(d);
    } else if d.lostAcks {
      LostAckShows(d);
    } else {
      forall s | Reachable(d, s)
        ensures s.ideal == s.view
      {
        CacheAgrees(s);
      }
    }
  }
}
