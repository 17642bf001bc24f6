/** The edge node's publishing loop over its durable spool. The network is a
    demon that chooses the fate of every POST. The object's invariant is the
    pipeline of `Delivery`: completed and queued frames cover the produced ones
    in order and overlap in the head at most, so exactly-once delivery holds at
    every moment, whatever the demon does. */
module EdgeClient {
  import opened Wrappers
  import opened Gateway
  import opened Delivery
  import opened SpoolNames
  import FrameSpool
  import BenchGateway

  /** A publishing session: what was produced before it, its windows and their first
      sequence, its flush limit, and the length of the queue it found. */
  datatype Session = Session(before: seq<Frame>, windows: seq<string>, first: nat, limit: int, queued: nat)

  class Client {
    const node: string
    const asset: string
    const campaign: Option<string>
    const sampleRate: real
    const retries: nat
    const spool: FrameSpool.Spool
    const gateway: BenchGateway.Gateway
    /** All frames handed to this client, and those the gateway completed, in order. */
    ghost var produced: seq<Frame>
    ghost var completed: seq<Frame>
    /** Every frame posted so far, with the fates of its POSTs. */
    ghost var sent: seq<Sent>

    constructor (
      node: string, asset: string, campaign: Option<string>, sampleRate: real, retries: nat,
      spool: FrameSpool.Spool, gateway: BenchGateway.Gateway)
      requires spool.Valid() && spool.Contents() == [] && spool.maxFiles >= 1
      requires gateway.Valid() && ServerHolds(gateway.Value(), node, [])
      requires AdmissionRefusal(gateway.Value(), Frame(node, asset, campaign, 0, sampleRate, "")).None?
      ensures Valid() && produced == [] && sent == []
      ensures this.spool == spool && this.gateway == gateway
    {
      this.node, this.asset, this.campaign := node, asset, campaign;
      this.sampleRate, this.retries := sampleRate, retries;
      this.spool, this.gateway := spool, gateway;
      produced, completed, sent := [], [], [];
    }

    function NewFrame(sequence: nat, window: string): Frame {
      Frame(node, asset, campaign, sequence, sampleRate, window)
    }

    /** The delivery invariant with respect to a queue. */
    ghost predicate Delivers(queued: seq<Frame>)
      reads this`produced, this`completed, gateway
    {
      && gateway.Valid()
      && Increasing(produced, node)
      && Pipeline(produced, completed, queued)
      && ServerHolds(gateway.Value(), node, completed)
      && Admits(gateway.Value(), produced + [NewFrame(0, "")])
    }

    ghost predicate Marked()
      reads this`produced, spool`sequenceState
    {
      forall f :: f in produced ==> spool.sequenceState.Some? && f.sequence < spool.sequenceState.value
    }

    ghost predicate Working()
      reads this`produced, this`completed, spool`files, spool`names, gateway
    {
      spool.Valid() && spool.maxFiles >= 1 && Delivers(spool.Contents())
    }

    ghost predicate Valid()
      reads this, spool, gateway
    {
      Working() && Marked()
    }

    /** One POST. */
    method Send(f: Frame, fate: Fate) returns (ok: bool, ghost call: nat)
      requires gateway.Valid()
      modifies gateway
      ensures gateway.Valid() && call !in old(gateway.inFlight)
      ensures (gateway.Value(), ok) == Attempt(old(gateway.Value()), call, f, fate)
    {
      if fate.RequestLost? {
        call := gateway.nextCall;
        return false, call;
      }
      var id, reply := gateway.Claim(f);
      call := id;
      var success := reply.Cached?;
      if reply.Claimed? {
        if fate.analysis.Some? {
          gateway.Commit(id, fate.analysis.value);
          success := true;
        } else {
          gateway.Rollback(id);
        }
      }
      ok := success && fate.Answered?;
    }

    /** `publish_payload`: up to `retries` further POSTs after a failed one,
        whatever the kind of failure. */
    method Post(f: Frame, ghost queued: seq<Frame>) returns (ok: bool, attempts: nat)
      requires Delivers(queued) && queued != [] && queued[0] == f
      modifies gateway, this`completed, this`sent
      ensures Delivers(queued)
      ensures ok ==> Delivers(queued[1..])
      ensures sent != [] && sent == old(sent) + [sent[|sent| - 1]]
      ensures var s := sent[|sent| - 1];
              && s.frame == f && s.ok == ok && |s.fates| == attempts
              && IsPosted(s, f in old(completed), retries)
              && completed == Completes(old(completed), f, s.fates)
    {
      hide Pipeline, ServerHolds, Increasing, Admits, Attempt, NewlyCompleted, IsAcknowledged, Completes;
      ok, attempts := false, 0;
      ghost var done, fates := f in completed, [];
      NothingCompletes(completed, f);
      while attempts <= retries && !ok
        invariant attempts <= retries + 1 && (ok ==> attempts >= 1) && |fates| == attempts
        invariant Delivers(queued) && sent == old(sent)
        invariant ok ==> Delivers(queued[1..])
        invariant completed == Completes(old(completed), f, fates)
        invariant forall k :: 0 <= k < attempts - 1 ==> !IsAcknowledged(done, fates, k)
        invariant attempts > 0 ==> (ok <==> IsAcknowledged(done, fates, attempts - 1))
        decreases retries - attempts + 1
      {
        var fate: Fate := *;
        ok := PostOnce(f, queued, fate);
        OneMoreFate(old(completed), f, fates, fate);
        fates := fates + [fate];
        attempts := attempts + 1;
      }
      sent := sent + [Sent(f, fates, ok)];
    }

    /** One POST of the head of the queue. */
    method PostOnce(f: Frame, ghost queued: seq<Frame>, fate: Fate) returns (ok: bool)
      requires Delivers(queued) && queued != [] && queued[0] == f
      modifies gateway, this`completed
      ensures Delivers(queued)
      ensures ok ==> Delivers(queued[1..])
      ensures ok <==> fate.Answered? && (f in old(completed) || Processes(fate))
      ensures completed == old(completed) + if f !in old(completed) && Processes(fate) then [f] else []
    {
      hide Pipeline, ServerHolds, Increasing, Admits, Attempt, NewlyCompleted;
      ghost var before := gateway.Value();
      ghost var call;
      assert f in produced + [NewFrame(0, "")] by {
        PipelineCovers(produced, completed, queued);
        assert queued[0] in queued;
      }
      assert AdmissionRefusal(before, f).None? by {
        AdmittedOne(before, produced + [NewFrame(0, "")], f);
      }
      ok, call := Send(f, fate);
      AttemptKeepsPipeline(before, call, node, produced, completed, queued, produced + [NewFrame(0, "")], fate);
      HeadOutcome(before, call, node, produced, completed, queued, fate);
      completed := completed + NewlyCompleted(before, f, fate);
    }

    lemma AdmittedOne(g: State, frames: seq<Frame>, f: Frame)
      requires Admits(g, frames) && f in frames
      ensures AdmissionRefusal(g, f).None?
    {
    }

    /** What the gateway has completed after POSTs of one frame. */
    static function Completes(completed: seq<Frame>, f: Frame, fates: seq<Fate>): seq<Frame> {
      if f !in completed && exists j :: 0 <= j < |fates| && Processes(fates[j]) then completed + [f] else completed
    }

    static lemma NothingCompletes(completed: seq<Frame>, f: Frame)
      ensures Completes(completed, f, []) == completed
    {
    }

    static lemma OneMoreFate(completed: seq<Frame>, f: Frame, fates: seq<Fate>, fate: Fate)
      ensures var before := Completes(completed, f, fates);
              && Completes(completed, f, fates + [fate])
                 == before + (if f !in before && Processes(fate) then [f] else [])
              && (IsAcknowledged(f in completed, fates + [fate], |fates|) <==>
                    fate.Answered? && (f in before || Processes(fate)))
      ensures forall k :: 0 <= k < |fates| ==>
                IsAcknowledged(f in completed, fates + [fate], k) == IsAcknowledged(f in completed, fates, k)
    {
      var more := fates + [fate];
      assert more[|fates|] == fate;
      assert forall j :: 0 <= j < |fates| ==> more[j] == fates[j];
    }

    /** Sends the oldest file and deletes it once it is acknowledged. */
    method SendFile(name: string) returns (ok: bool)
      requires Working() && spool.names != [] && name == spool.names[0]
      modifies gateway, this`completed, this`sent, spool`files, spool`names
      ensures Working() && produced == old(produced)
      ensures sent != [] && sent == old(sent) + [sent[|sent| - 1]]
      ensures var s := sent[|sent| - 1];
              s.frame == old(spool.Contents())[0] && s.ok == ok && IsSomehowPosted(s, retries)
      ensures spool.names == if ok then old(spool.names)[1..] else old(spool.names)
      ensures spool.Contents() == if ok then old(spool.Contents())[1..] else old(spool.Contents())
    {
      hide Delivers;
      assert name in spool.names;
      var attempts;
      ok, attempts := Post(spool.files[name], spool.Contents());
      if ok {
        spool.Unlink(name);
      }
    }

    lemma Drained()
      requires Delivers([])
      ensures completed == produced
    {
      DrainedMeansComplete(produced, completed);
    }

    lemma DropOne<T>(s: seq<T>, n: nat)
      requires n < |s|
      ensures s[n..][1..] == s[n + 1..]
    {
    }

    /** Sends the queue oldest first and stops at the first failure, so that no
        later frame overtakes an earlier one. */
    method Flush(limit: int)
      returns (attempted: nat, delivered: nat, failed: nat, remaining: nat, ghost posts: seq<Sent>)
      requires Working()
      modifies gateway, this`completed, this`sent, spool`files, spool`names
      ensures Working() && produced == old(produced)
      ensures sent == old(sent) + posts && IsFlush(old(spool.Contents()), spool.Contents(), posts, limit, retries)
      ensures attempted == |posts| && delivered == DeliveredBy(posts)
      ensures failed == attempted - delivered && remaining == |spool.Contents()|
      ensures remaining == 0 ==> completed == produced
    {
      hide Delivers, FrameSpool.FramesOf, FrameSpool.Lists, FrameSpool.Named, IsSomehowPosted, IsFlush, DeliveredBy;
      attempted, delivered, failed := 0, 0, 0;
      var listing := spool.Pending();
      var bound := Bound(limit, |listing|);
      ghost var queued := spool.Contents();
      posts := [];
      assert ArePosts(queued, posts, 0);
      hide ArePosts;
      while attempted < bound && failed == 0
        invariant Working() && produced == old(produced)
        invariant sent == old(sent) + posts && |posts| == attempted
        invariant attempted == delivered + failed && failed <= 1 && attempted <= bound
        invariant delivered <= |queued| && spool.Contents() == queued[delivered..]
        invariant delivered <= |listing| && spool.names == listing[delivered..]
        invariant ArePosts(queued, posts, delivered)
        decreases bound - attempted
      {
        var name := listing[attempted];
        attempted := attempted + 1;
        var ok := SendFile(name);
        ghost var s := sent[|sent| - 1];
        OnePost(queued, posts, delivered, s);
        posts := posts + [s];
        if ok {
          DropOne(queued, delivered);
          DropOne(listing, delivered);
          delivered := delivered + 1;
        } else {
          failed := 1;
        }
      }
      PostsFlush(queued, spool.Contents(), posts, delivered, limit);
      listing := spool.Pending();
      remaining := |listing|;
      if remaining == 0 {
        assert spool.Contents() == [];
        Drained();
      }
    }

    predicate ArePosts(queue: seq<Frame>, posts: seq<Sent>, delivered: nat) {
      && |posts| <= |queue|
      && forall k :: 0 <= k < |posts| ==>
           posts[k].frame == queue[k] && posts[k].ok == (k < delivered) && IsSomehowPosted(posts[k], retries)
    }

    lemma OnePost(queue: seq<Frame>, posts: seq<Sent>, delivered: nat, s: Sent)
      requires ArePosts(queue, posts, delivered) && delivered == |posts| < |queue|
      requires s.frame == queue[|posts|] && IsSomehowPosted(s, retries)
      ensures ArePosts(queue, posts + [s], if s.ok then delivered + 1 else delivered)
    {
    }

    lemma PostsFlush(queue: seq<Frame>, after: seq<Frame>, posts: seq<Sent>, delivered: nat, limit: int)
      requires |posts| <= Bound(limit, |queue|) && delivered <= |posts| <= delivered + 1
      requires ArePosts(queue, posts, delivered)
      requires after == queue[delivered..]
      requires delivered == |posts| ==> |posts| == Bound(limit, |queue|)
      ensures IsFlush(queue, after, posts, limit, retries) && DeliveredBy(posts) == delivered
    {
      hide IsSomehowPosted;
      if delivered < |posts| {
        assert !posts[delivered].ok && posts[delivered] in posts;
      }
    }

    /** A new frame of this client, newer than everything produced so far. */
    ghost predicate IsNext(f: Frame)
      reads this`produced
    {
      && f == NewFrame(f.sequence, f.payload) && f.sequence < LIMIT
      && forall x :: x in produced ==> x.sequence < f.sequence
    }

    ghost method Produce(f: Frame, queued: seq<Frame>)
      requires Delivers(queued) && IsNext(f)
      modifies this`produced
      ensures Delivers(queued + [f]) && produced == old(produced) + [f]
    {
      ProduceKeepsPipeline(node, produced, completed, queued, f);
      NewestIsAdmitted(gateway.Value(), f, NewFrame(0, ""), produced);
      produced := produced + [f];
    }

    lemma PipelineHolds(f: Frame)
      requires Working() && IsNext(f)
      ensures FrameSpool.NewestOf(spool.Contents(), f)
    {
      PipelineCovers(produced, completed, spool.Contents());
    }

    /** While something is queued, a window goes to the end of the queue. */
    method PublishQueued(f: Frame, timestamp: string) returns (taken: bool)
      requires Working() && IsNext(f)
      modifies this`produced, spool`files, spool`names
      ensures Working()
      ensures produced == if taken then old(produced) + [f] else old(produced)
      ensures spool.Contents() == if taken then old(spool.Contents()) + [f] else old(spool.Contents())
      ensures taken <==> |old(spool.Contents())| < spool.maxFiles
    {
      hide Delivers;
      ghost var queued := spool.Contents();
      PipelineHolds(f);
      taken := spool.Enqueue(f, timestamp);
      if taken {
        Produce(f, queued);
      }
    }

    /** With nothing queued, a window goes straight to the gateway, and into the
        queue if that fails. */
    method PublishDirect(f: Frame, timestamp: string) returns (ok: bool, ghost posts: seq<Sent>)
      requires Working() && IsNext(f) && spool.Contents() == []
      modifies gateway, this`produced, this`completed, this`sent, spool`files, spool`names
      ensures Working() && produced == old(produced) + [f]
      ensures sent == old(sent) + posts && IsFlush([f], spool.Contents(), posts, 1, retries)
      ensures ok <==> spool.Contents() == []
    {
      hide Delivers, IsPosted, Completes, FrameSpool.FramesOf, FrameSpool.Lists, FrameSpool.Named, IsFlush, DeliveredBy;
      assert FrameSpool.NewestOf([], f);
      hide FrameSpool.NewestOf;
      Produce(f, []);
      assert [] + [f] == [f] && [f][1..] == [];
      var attempts;
      ok, attempts := Post(f, [f]);
      if !ok {
        var stored := spool.Enqueue(f, timestamp);
      }
      posts := [sent[|sent| - 1]];
      PostsFlush([f], spool.Contents(), posts, if ok then 1 else 0, 1);
    }

    /** A window is taken unless the queue is full. With an empty queue it is posted
        at once; otherwise it joins the queue, which is then flushed. Only what was
        posted without success, and what the limit leaves, stays queued. */
    method PublishWindow(f: Frame, flushLimit: int) returns (taken: bool, ghost posts: seq<Sent>)
      requires Working() && IsNext(f)
      modifies gateway, this`produced, this`completed, this`sent, spool`files, spool`names
      ensures Working()
      ensures produced == if taken then old(produced) + [f] else old(produced)
      ensures taken <==> old(spool.Contents()) == [] || |old(spool.Contents())| < spool.maxFiles
      ensures sent == old(sent) + posts
      ensures !taken ==> posts == [] && spool.Contents() == old(spool.Contents())
      ensures taken ==>
                IsFlush(old(spool.Contents()) + [f], spool.Contents(), posts,
                        if old(spool.Contents()) == [] then 1 else flushLimit, retries)
    {
      hide IsFlush, Delivers, FrameSpool.FramesOf, FrameSpool.Lists, FrameSpool.Named;
      var timestamp: string := *;
      var pending := spool.Pending();
      if pending != [] {
        taken := PublishQueued(f, timestamp);
        posts := [];
        if taken {
          var attempted, delivered, failed, remaining;
          attempted, delivered, failed, remaining, posts := Flush(flushLimit);
        }
      } else {
        taken := true;
        assert spool.Contents() == [] && [] + [f] == [f];
        var ok;
        ok, posts := PublishDirect(f, timestamp);
      }
    }

    /** The first sequence of a session: the requested one, or the one marked next
        by the last session if that is larger. It exceeds every one used before. */
    method StartSequence(requestedStart: nat) returns (sequence: nat)
      requires Valid()
      ensures forall f :: f in produced ==> f.sequence < sequence
      ensures sequence == FirstSequence(requestedStart, spool.sequenceState)
    {
      PipelineCovers(produced, completed, spool.Contents());
      sequence := spool.NextSequence(requestedStart);
    }

    static function FirstSequence(requested: nat, marked: Option<nat>): nat {
      if marked.Some? && marked.value > requested then marked.value else requested
    }

    /** The frames of a session's first windows. */
    function NewFrames(first: nat, windows: seq<string>): seq<Frame> {
      seq(|windows|, i requires 0 <= i < |windows| => NewFrame(first + i, windows[i]))
    }

    /** One pass of the publishing loop: the window, then the next sequence. */
    method PublishNext(f: Frame, flushLimit: int) returns (taken: bool, ghost posts: seq<Sent>)
      requires Valid() && IsNext(f)
      modifies gateway, this, spool
      ensures Valid()
      ensures produced == if taken then old(produced) + [f] else old(produced)
      ensures spool.sequenceState == if taken then Some(f.sequence + 1) else old(spool.sequenceState)
      ensures taken <==> old(spool.Contents()) == [] || |old(spool.Contents())| < spool.maxFiles
      ensures sent == old(sent) + posts
      ensures !taken ==> posts == [] && spool.Contents() == old(spool.Contents())
      ensures taken ==>
                IsFlush(old(spool.Contents()) + [f], spool.Contents(), posts,
                        if old(spool.Contents()) == [] then 1 else flushLimit, retries)
    {
      hide Delivers, IsFlush, FrameSpool.FramesOf, FrameSpool.Lists, FrameSpool.Named;
      taken, posts := PublishWindow(f, flushLimit);
      if taken {
        spool.MarkNextSequence(f.sequence + 1);
      }
    }

    /** The publishing loop of one session. It stops early only when the directory
        is full; the refused window is then not counted as produced. Without a failed
        POST the backlog goes down by the limit at each step, and a limit that covers
        the first queue leaves nothing unsent. */
    method PublishWindows(windows: seq<string>, sequenceStart: nat, flushLimit: int)
      returns (frameCount: nat, ghost posts: seq<Sent>)
      requires Valid()
      requires sequenceStart + |windows| <= LIMIT
      requires spool.sequenceState.Some? ==> spool.sequenceState.value + |windows| <= LIMIT
      modifies gateway, this, spool
      ensures Valid()
      ensures frameCount <= |windows|
      ensures var first := FirstSequence(sequenceStart, old(spool.sequenceState));
              && produced == old(produced) + NewFrames(first, windows[..frameCount])
              && (frameCount > 0 ==> spool.sequenceState == Some(first + frameCount))
      ensures frameCount < |windows| ==> |spool.Contents()| >= spool.maxFiles
      ensures sent == old(sent) + posts
      ensures AllOk(posts) ==>
                var n := |old(spool.Contents())|;
                && |spool.Contents()| == Backlog(n - Bound(flushLimit, n), flushLimit, frameCount)
                && (flushLimit >= n ==> completed == produced && frameCount == |windows|)
    {
      hide Delivers, IsFlush, FrameSpool.FramesOf, FrameSpool.Lists, FrameSpool.Named, AllOk, Backlog, Bound;
      hide FirstSequence, NewFrames, HasPublished;
      ghost var queue, marked, before := spool.Contents(), spool.sequenceState, produced;
      var attempted, delivered, failed, remaining;
      attempted, delivered, failed, remaining, posts := Flush(flushLimit);
      var sequence: nat := StartSequence(sequenceStart);
      ghost var session := Session(before, windows, sequence, flushLimit, |spool.Contents()|);
      SessionStarts(session, sequenceStart, marked, spool.sequenceState);
      ghost var left, more := spool.Contents(), [];
      frameCount, more := PublishAll(windows, sequence, flushLimit, session);
      SessionEnds(session, produced, more, |spool.Contents()|, spool.sequenceState, frameCount);
      AllSent();
      BothFlushed(queue, left, posts, more, flushLimit, frameCount);
      posts := posts + more;
    }

    /** The windows of a session, one after the other, until the directory is full. */
    method PublishAll(
      windows: seq<string>, first: nat, flushLimit: int, ghost session: Session)
      returns (n: nat, ghost posts: seq<Sent>)
      requires Valid() && first + |windows| <= LIMIT
      requires session.windows == windows && session.first == first && session.limit == flushLimit
      requires HasPublished(session, produced, [], |spool.Contents()|, spool.sequenceState, 0)
      modifies gateway, this, spool
      ensures Valid() && n <= |windows|
      ensures n < |windows| ==> |spool.Contents()| >= spool.maxFiles
      ensures sent == old(sent) + posts
      ensures HasPublished(session, produced, posts, |spool.Contents()|, spool.sequenceState, n)
    {
      hide Delivers, IsFlush, FrameSpool.FramesOf, FrameSpool.Lists, FrameSpool.Named, NewFrames, HasPublished;
      hide IsNext, Marked, NewFrame;
      n := 0;
      posts := [];
      while n < |windows|
        invariant Valid() && n <= |windows|
        invariant sent == old(sent) + posts
        invariant HasPublished(session, produced, posts, |spool.Contents()|, spool.sequenceState, n)
      {
        ghost var queue, now, marked := spool.Contents(), produced, spool.sequenceState;
        var f := NewFrame(first + n, windows[n]);
        NextIsNew(session, posts, n);
        var taken;
        ghost var new_;
        taken, new_ := PublishNext(f, flushLimit);
        if !taken {
          break;
        }
        SessionGoesOn(session, now, marked, queue, f, spool.Contents(), posts, new_, n);
        LogExtends(old(sent), posts, new_);
        posts := posts + new_;
        n := n + 1;
      }
    }

    static lemma LogExtends(log: seq<Sent>, posts: seq<Sent>, new_: seq<Sent>)
      ensures (log + posts) + new_ == log + (posts + new_)
    {
    }

    /** What a session of n windows has done: the frames it produced, the sequence it
        marked next, and, if no POST failed, how long the queue is. */
    predicate HasPublished(
      session: Session, now: seq<Frame>, posts: seq<Sent>, queued: nat, marked: Option<nat>, n: nat)
      requires n <= |session.windows|
    {
      && now == session.before + NewFrames(session.first, session.windows[..n])
      && (forall f :: f in now ==> f.sequence < session.first + n)
      && (n > 0 ==> marked == Some(session.first + n))
      && (AllOk(posts) ==> queued == Backlog(session.queued, session.limit, n))
    }

    lemma SessionStarts(session: Session, requested: nat, old_: Option<nat>, marked: Option<nat>)
      requires requested + |session.windows| <= LIMIT && (old_.Some? ==> old_.value + |session.windows| <= LIMIT)
      requires session.first == FirstSequence(requested, old_)
      requires forall f :: f in session.before ==> f.sequence < session.first
      ensures HasPublished(session, session.before, [], session.queued, marked, 0)
      ensures session.first + |session.windows| <= LIMIT
    {
    }

    /** A first flush and a session without a failed POST. */
    lemma BothFlushed(
      queue: seq<Frame>, left: seq<Frame>, posts: seq<Sent>, more: seq<Sent>, limit: int, n: nat)
      requires IsFlush(queue, left, posts, limit, retries)
      ensures AllOk(posts + more) ==> AllOk(posts) && AllOk(more)
      ensures AllOk(posts + more) ==>
                Backlog(|left|, limit, n) == Backlog(|queue| - Bound(limit, |queue|), limit, n)
      ensures AllOk(posts + more) && limit >= |queue| ==> Backlog(|left|, limit, n) == 0
    {
      hide IsFlush, Backlog;
      if AllOk(posts + more) {
        assert forall s :: s in posts ==> s in posts + more;
        assert forall s :: s in more ==> s in posts + more;
        hide AllOk;
        FlushAll(queue, left, posts, limit, retries);
        NothingLeft(limit, |queue|, n);
      }
    }

    lemma NextIsNew(session: Session, posts: seq<Sent>, n: nat)
      requires spool.Valid() && n < |session.windows| && session.first + |session.windows| <= LIMIT
      requires HasPublished(session, produced, posts, |spool.Contents()|, spool.sequenceState, n)
      ensures IsNext(NewFrame(session.first + n, session.windows[n]))
    {
    }

    lemma SessionGoesOn(
      session: Session, now: seq<Frame>, marked: Option<nat>, queue: seq<Frame>, f: Frame, after: seq<Frame>,
      posts: seq<Sent>, new_: seq<Sent>, n: nat)
      requires n < |session.windows| && f == NewFrame(session.first + n, session.windows[n])
      requires HasPublished(session, now, posts, |queue|, marked, n)
      requires IsFlush(queue + [f], after, new_, if queue == [] then 1 else session.limit, retries)
      ensures HasPublished(session, now + [f], posts + new_, |after|, Some(f.sequence + 1), n + 1)
    {
      var windows := session.windows;
      assert NewFrames(session.first, windows[..n + 1]) == NewFrames(session.first, windows[..n]) + [f];
      if AllOk(posts + new_) {
        assert forall s :: s in posts ==> s in posts + new_;
        assert forall s :: s in new_ ==> s in posts + new_;
        FlushAll(queue + [f], after, new_, if queue == [] then 1 else session.limit, retries);
      }
    }

    lemma SessionEnds(
      session: Session, now: seq<Frame>, posts: seq<Sent>, queued: nat, marked: Option<nat>, n: nat)
      requires n <= |session.windows| && HasPublished(session, now, posts, queued, marked, n)
      ensures now == session.before + NewFrames(session.first, session.windows[..n])
      ensures n > 0 ==> marked == Some(session.first + n)
      ensures AllOk(posts) ==> queued == Backlog(session.queued, session.limit, n)
    {
    }

    static lemma {:induction false} NothingLeft(limit: int, n: nat, k: nat)
      ensures limit >= n ==> Backlog(n - Bound(limit, n), limit, k) == 0
    {
      if limit >= n && k > 0 {
        NothingLeft(limit, n, k - 1);
      }
    }

    lemma AllSent()
      requires Working()
      ensures spool.Contents() == [] ==> completed == produced
    {
      if spool.Contents() == [] {
        Drained();
      }
    }
  }
}
