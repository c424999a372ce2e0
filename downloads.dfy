/** The image download queue and texture cache of the news window. Each operation and each
    fetch completion is one atomic step on an explicit state; a drain loop that is waiting
    for a fetch is a pending fetch that remembers the cancellation scope it was started in. */
module Downloads {
  import opened Text
  import opened Numbers

  /** A fetch in flight: the url and the cancellation scope (generation) of the drain loop
      that started it and now waits for it. */
  datatype Fetch = Fetch(url: string, scope: nat)

  /** How a fetch ends. Canceled is a TaskCanceledException (a timeout, or cancellation
      while the request ran); Bytes is a successful body and whether Texture2D.LoadImage
      decodes it; Failure is any other exception, with its message. */
  datatype Outcome =
    | HttpStatus(code: int, reason: string)
    | Canceled
    | Bytes(data: seq<byte>, decodes: bool)
    | Failure(message: string)

  /** texCache (the decoded texture stands for its bytes), texErrors, texDownloading,
      downloadQueue, isProcessingQueue, the current cancellation scope, and the fetches in
      flight. */
  datatype State = State(
    cache: map<string, seq<byte>>,
    errors: map<string, string>,
    downloading: set<string>,
    queue: seq<string>,
    processing: bool,
    scope: nat,
    pending: seq<Fetch>)

  const Initial: State := State(map[], map[], {}, [], false, 0, [])

  predicate Distinct(q: seq<string>) {
    forall i, j :: 0 <= i < j < |q| ==> q[i] != q[j]
  }

  /** The number of fetches in flight that were started in scope g. */
  function InScope(p: seq<Fetch>, g: nat): nat {
    if p == [] then 0 else InScope(p[..|p| - 1], g) + (if p[|p| - 1].scope == g then 1 else 0)
  }

  function RemoveAt(p: seq<Fetch>, i: nat): (r: seq<Fetch>)
    requires i < |p|
    ensures |r| == |p| - 1
    ensures forall k :: 0 <= k < i ==> r[k] == p[k]
    ensures forall k :: i <= k < |r| ==> r[k] == p[k + 1]
  {
    p[..i] + p[i + 1..]
  }

  /** The state the queue keeps: no url queued twice, no fetch from a future scope, and
      the processing flag set exactly when one drain loop of the current scope runs. */
  predicate Inv(s: State) {
    Distinct(s.queue)
    && (forall i :: 0 <= i < |s.pending| ==> s.pending[i].scope <= s.scope)
    && InScope(s.pending, s.scope) == (if s.processing then 1 else 0)
  }

  /** ClearDownloads: cancel (a new scope), empty the queue and the in-flight set, and
      clear the processing flag. Fetches already in flight go on. */
  function Cleared(s: State): State {
    s.(scope := s.scope + 1, queue := [], downloading := {}, processing := false)
  }

  /** The drain loop of ProcessDownloadQueue started in scope g, resumed: while the queue
      is not empty and g is not cancelled, take the next url, and start a fetch for it
      unless it is in flight or cached. When it leaves the loop, the flag is cleared
      only if it is still the current loop (see AdvancedAsWritten). */
  function Advanced(s: State, g: nat): State
    decreases |s.queue|
  {
    if s.queue == [] || g != s.scope then
      if g == s.scope then s.(processing := false) else s
    else
      var u := s.queue[0];
      var s1 := s.(queue := s.queue[1..]);
      if u !in s.downloading && u !in s.cache then
        s1.(downloading := s.downloading + {u}, pending := s.pending + [Fetch(u, g)])
      else Advanced(s1, g)
  }

  /** ProcessDownloadQueue: start a drain loop only when none runs and there is work. */
  function Drained(s: State): State {
    if s.processing || s.queue == [] then s
    else Advanced(s.(processing := true), s.scope)
  }

  /** QueueDownloadByPriority: queue a url that is neither in flight, cached nor queued,
      then try to drain. */
  function Queued(s: State, url: string): State {
    if url in s.downloading || url in s.cache || url in s.queue then s
    else Drained(s.(queue := s.queue + [url]))
  }

  /** The texErrors entry a finished fetch leaves: Some(text) to set, None to remove.
      A stale fetch is one whose scope was cancelled before its body was read. */
  function ErrorFor(o: Outcome, stale: bool): Option<string> {
    match o
    case HttpStatus(code, reason) => Some("HTTP " + IntToString(code) + " " + reason)
    case Canceled => Some("Request timeout")
    case Bytes(data, decodes) =>
      if stale then None
      else if data == [] then Some("Empty response")
      else if decodes then None
      else Some("Unsupported format or corrupted data")
    case Failure(message) => Some(message)
  }

  /** The outcome handling of StartDownload for fetch f. */
  function Settled(s: State, f: Fetch, o: Outcome): State {
    var stale := f.scope != s.scope;
    var cache := if o.Bytes? && !stale && o.data != [] && o.decodes then s.cache[f.url := o.data] else s.cache;
    var errors := match ErrorFor(o, stale)
      case Some(text) => s.errors[f.url := text]
      case None => s.errors - {f.url};
    s.(cache := cache, errors := errors, downloading := s.downloading - {f.url})
  }

  /** The i-th fetch in flight ends with outcome o, and the drain loop waiting for it
      resumes. */
  function Completed(s: State, i: nat, o: Outcome): State
    requires i < |s.pending|
  {
    var f := s.pending[i];
    Advanced(Settled(s.(pending := RemoveAt(s.pending, i)), f, o), f.scope)
  }

  // ---------------------------------------------------------------------------------
  // The drain loop

  /** One resumption of a drain loop starts at most one fetch, never for a url in flight
      or cached, keeps the rest of the queue, and forgets no url it dequeues. */
  lemma AdvancedEffect(s: State, g: nat)
    ensures var r := Advanced(s, g);
      r.cache == s.cache && r.errors == s.errors && r.scope == s.scope
      && |r.queue| <= |s.queue| && r.queue == s.queue[|s.queue| - |r.queue|..]
      && s.downloading <= r.downloading
      && (forall u :: u in s.queue ==> u in r.queue || u in r.downloading || u in r.cache)
      && (forall u :: u in r.downloading ==> u in s.downloading || u in s.queue)
      && ((r.pending == s.pending && r.processing == (if g == s.scope then false else s.processing)
           && (g == s.scope ==> r.queue == []))
          || (g == s.scope && r.processing == s.processing
              && |r.pending| == |s.pending| + 1 && r.pending[..|s.pending|] == s.pending
              && r.pending[|s.pending|].scope == g
              && r.pending[|s.pending|].url in s.queue
              && r.pending[|s.pending|].url !in s.downloading
              && r.pending[|s.pending|].url !in s.cache))
  {
    AdvancedKeeps(s, g);
    AdvancedTracks(s, g);
    AdvancedStarts(s, g);
  }

  /** The resumption keeps the cache, the errors and the scope, leaves a suffix of the
      queue, and takes no url out of the in-flight set. */
  lemma {:induction false} AdvancedKeeps(s: State, g: nat)
    ensures var r := Advanced(s, g);
      r.cache == s.cache && r.errors == s.errors && r.scope == s.scope
      && |r.queue| <= |s.queue| && r.queue == s.queue[|s.queue| - |r.queue|..]
      && s.downloading <= r.downloading
    decreases |s.queue|
  {
    if s.queue != [] && g == s.scope {
      var u := s.queue[0];
      var s1 := s.(queue := s.queue[1..]);
      if u in s.downloading || u in s.cache {
        AdvancedKeeps(s1, g);
        var r := Advanced(s1, g);
        assert s.queue[|s.queue| - |r.queue|..] == s1.queue[|s1.queue| - |r.queue|..];
      } else {
        assert s.queue[|s.queue| - |s1.queue|..] == s1.queue;
      }
    } else {
      assert s.queue[|s.queue| - |s.queue|..] == s.queue;
    }
  }

  /** Every url the resumption dequeues is in flight or cached, and a url is in flight
      afterwards only if it was before or was queued. */
  lemma {:induction false} AdvancedTracks(s: State, g: nat)
    ensures var r := Advanced(s, g);
      (forall u :: u in s.queue ==> u in r.queue || u in r.downloading || u in r.cache)
      && (forall u :: u in r.downloading ==> u in s.downloading || u in s.queue)
    decreases |s.queue|
  {
    if s.queue != [] && g == s.scope {
      var u := s.queue[0];
      var s1 := s.(queue := s.queue[1..]);
      assert s.queue == [u] + s1.queue;
      if u in s.downloading || u in s.cache {
        AdvancedTracks(s1, g);
        AdvancedKeeps(s1, g);
      }
    }
  }

  /** The resumption either starts no fetch (and then, in the current scope, has emptied
      the queue and cleared the flag) or appends exactly one fetch, of the current scope,
      for a queued url neither in flight nor cached. */
  lemma {:induction false} AdvancedStarts(s: State, g: nat)
    ensures var r := Advanced(s, g);
      (r.pending == s.pending && r.processing == (if g == s.scope then false else s.processing)
       && (g == s.scope ==> r.queue == []))
      || (g == s.scope && r.processing == s.processing
          && |r.pending| == |s.pending| + 1 && r.pending[..|s.pending|] == s.pending
          && r.pending[|s.pending|].scope == g
          && r.pending[|s.pending|].url in s.queue
          && r.pending[|s.pending|].url !in s.downloading
          && r.pending[|s.pending|].url !in s.cache)
    decreases |s.queue|
  {
    if s.queue != [] && g == s.scope {
      var u := s.queue[0];
      var s1 := s.(queue := s.queue[1..]);
      if u in s.downloading || u in s.cache {
        AdvancedStarts(s1, g);
        var r := Advanced(s1, g);
        if r.pending != s.pending {
          assert r.pending[|s.pending|].url in s1.queue;
          assert s.queue == [u] + s1.queue;
        }
      } else {
        assert (s.pending + [Fetch(u, g)])[..|s.pending|] == s.pending;
      }
    }
  }

  lemma InScopeAppend(p: seq<Fetch>, f: Fetch, g: nat)
    ensures InScope(p + [f], g) == InScope(p, g) + (if f.scope == g then 1 else 0)
  {
    assert (p + [f])[..|p|] == p;
  }

  lemma {:induction false} InScopeRemove(p: seq<Fetch>, i: nat, g: nat)
    requires i < |p|
    ensures InScope(RemoveAt(p, i), g) + (if p[i].scope == g then 1 else 0) == InScope(p, g)
    decreases |p|
  {
    var last := p[|p| - 1];
    if i == |p| - 1 {
      assert RemoveAt(p, i) == p[..|p| - 1];
    } else {
      var q := p[..|p| - 1];
      InScopeRemove(q, i, g);
      assert RemoveAt(p, i) == RemoveAt(q, i) + [last];
      InScopeAppend(RemoveAt(q, i), last, g);
    }
  }

  /** No fetch of a scope above g. */
  lemma {:induction false} InScopeAbove(p: seq<Fetch>, g: nat)
    requires forall i :: 0 <= i < |p| ==> p[i].scope < g
    ensures InScope(p, g) == 0
    decreases |p|
  {
    if p != [] {
      InScopeAbove(p[..|p| - 1], g);
    }
  }

  // ---------------------------------------------------------------------------------
  // The invariant

  lemma InitialInv()
    ensures Inv(Initial)
  {
  }

  /** A loop resumed in the current scope keeps the invariant, given that the flag is set
      and no fetch of the scope is in flight. */
  lemma AdvancedCurrentInv(s: State)
    requires Distinct(s.queue) && (forall i :: 0 <= i < |s.pending| ==> s.pending[i].scope <= s.scope)
    requires s.processing && InScope(s.pending, s.scope) == 0
    ensures Inv(Advanced(s, s.scope))
  {
    AdvancedKeeps(s, s.scope);
    AdvancedStarts(s, s.scope);
    ResumedInv(s, Advanced(s, s.scope));
  }

  /** The invariant after a resumption of the current loop, from its effect alone. */
  lemma ResumedInv(s: State, r: State)
    requires Distinct(s.queue) && (forall i :: 0 <= i < |s.pending| ==> s.pending[i].scope <= s.scope)
    requires s.processing && InScope(s.pending, s.scope) == 0
    requires r.scope == s.scope && |r.queue| <= |s.queue| && r.queue == s.queue[|s.queue| - |r.queue|..]
    requires (r.pending == s.pending && !r.processing)
      || (r.processing && |r.pending| == |s.pending| + 1 && r.pending[..|s.pending|] == s.pending
          && r.pending[|s.pending|].scope == s.scope)
    ensures Inv(r)
  {
    DistinctSuffix(s.queue, |s.queue| - |r.queue|);
    if r.pending != s.pending {
      var f := r.pending[|s.pending|];
      assert r.pending == s.pending + [f];
      InScopeAppend(s.pending, f, s.scope);
    }
  }

  /** What is left of a queue without duplicates has none. */
  lemma DistinctSuffix(q: seq<string>, d: nat)
    requires Distinct(q) && d <= |q|
    ensures Distinct(q[d..])
  {
    forall i, j | 0 <= i < j < |q[d..]|
      ensures q[d..][i] != q[d..][j]
    {
      assert q[d..][i] == q[d + i] && q[d..][j] == q[d + j];
    }
  }

  lemma ClearedInv(s: State)
    requires Inv(s)
    ensures Inv(Cleared(s))
  {
    InScopeAbove(s.pending, s.scope + 1);
  }

  lemma DrainedInv(s: State)
    requires Inv(s)
    ensures Inv(Drained(s))
  {
    if !s.processing && s.queue != [] {
      AdvancedCurrentInv(s.(processing := true));
    }
  }

  lemma QueuedInv(s: State, url: string)
    requires Inv(s)
    ensures Inv(Queued(s, url))
  {
    if !(url in s.downloading || url in s.cache || url in s.queue) {
      var s1 := s.(queue := s.queue + [url]);
      assert Inv(s1);
      DrainedInv(s1);
    }
  }

  lemma SettledFrame(s: State, f: Fetch, o: Outcome)
    ensures var r := Settled(s, f, o);
      r.queue == s.queue && r.processing == s.processing && r.scope == s.scope && r.pending == s.pending
  {
  }

  /** Completing a fetch keeps the invariant: a stale loop stops without touching the
      flag, and the current loop either starts the next fetch or clears the flag. */
  lemma CompletedInv(s: State, i: nat, o: Outcome)
    requires Inv(s) && i < |s.pending|
    ensures Inv(Completed(s, i, o))
  {
    var f := s.pending[i];
    var p := RemoveAt(s.pending, i);
    InScopeRemove(s.pending, i, s.scope);
    var s1 := Settled(s.(pending := p), f, o);
    SettledFrame(s.(pending := p), f, o);
    assert forall k :: 0 <= k < |p| ==> p[k].scope <= s.scope;
    if f.scope == s.scope {
      AdvancedCurrentInv(s1);
    }
  }

  // ---------------------------------------------------------------------------------
  // Properties of the operations

  /** After queueing, the url is queued, in flight or cached; so queueing it again
      changes nothing. */
  lemma QueuedIdempotent(s: State, url: string)
    ensures var r := Queued(s, url); url in r.queue || url in r.downloading || url in r.cache
    ensures Queued(Queued(s, url), url) == Queued(s, url)
  {
    if !(url in s.downloading || url in s.cache || url in s.queue) {
      var s1 := s.(queue := s.queue + [url]);
      assert url in s1.queue;
      if !s1.processing {
        AdvancedEffect(s1.(processing := true), s.scope);
      }
    }
  }

  /** Draining starts nothing while a loop runs or when the queue is empty. */
  lemma DrainedWhenBusy(s: State)
    requires s.processing || s.queue == []
    ensures Drained(s) == s
  {
  }

  /** After ClearDownloads, queueing a url that is not cached starts its fetch at once, in
      the new scope. */
  lemma ClearedThenQueued(s: State, url: string)
    requires url !in s.cache
    ensures Queued(Cleared(s), url).pending == s.pending + [Fetch(url, s.scope + 1)]
    ensures Queued(Cleared(s), url).queue == []
    ensures Queued(Cleared(s), url).processing
  {
    var c := Cleared(s);
    var s1 := c.(queue := [url], processing := true);
    assert c.queue + [url] == [url];
    assert s1.queue[1..] == [];
  }

  /** Every outcome takes the url out of the in-flight set and changes no other url. */
  lemma SettledLocal(s: State, f: Fetch, o: Outcome)
    ensures var r := Settled(s, f, o);
      f.url !in r.downloading && r.downloading == s.downloading - {f.url}
      && (forall u :: u != f.url ==> (u in r.cache <==> u in s.cache) && (u in r.errors <==> u in s.errors))
      && (forall u :: u != f.url && u in r.cache ==> r.cache[u] == s.cache[u])
      && (forall u :: u != f.url && u in r.errors ==> r.errors[u] == s.errors[u])
  {
  }

  /** Only decodable, non-empty bytes read in the current scope are cached; a fetch whose
      scope was cancelled never writes the cache. */
  lemma SettledCaches(s: State, f: Fetch, o: Outcome)
    ensures var r := Settled(s, f, o);
      r.cache == s.cache
      || (o.Bytes? && o.decodes && o.data != [] && f.scope == s.scope && r.cache == s.cache[f.url := o.data])
    ensures f.scope != s.scope ==> Settled(s, f, o).cache == s.cache
  {
  }

  /** The url has an error after the fetch exactly when it did not end with bytes that
      were decoded or were read after cancellation. */
  lemma SettledErrors(s: State, f: Fetch, o: Outcome)
    ensures f.url in Settled(s, f, o).errors
      <==> !(o.Bytes? && (f.scope != s.scope || (o.data != [] && o.decodes)))
  {
  }

  /** The error texts of StartDownload's outcome handling. */
  lemma SettledMessages(s: State, f: Fetch, o: Outcome)
    ensures var r := Settled(s, f, o);
      (o.HttpStatus? ==> r.errors[f.url] == "HTTP " + IntToString(o.code) + " " + o.reason)
      && (o.Canceled? ==> r.errors[f.url] == "Request timeout")
      && (o.Failure? ==> r.errors[f.url] == o.message)
      && (o.Bytes? && f.scope == s.scope && o.data == [] ==> r.errors[f.url] == "Empty response")
      && (o.Bytes? && f.scope == s.scope && o.data != [] && !o.decodes
          ==> r.errors[f.url] == "Unsupported format or corrupted data")
  {
  }

  // ---------------------------------------------------------------------------------
  // The drain loop as written

  /** The drain loop as the source writes it: its finally block clears the processing
      flag whenever it leaves the loop, also when a newer loop has started since. */
  function AdvancedAsWritten(s: State, g: nat): State
    decreases |s.queue|
  {
    if s.queue == [] || g != s.scope then s.(processing := false)
    else
      var u := s.queue[0];
      var s1 := s.(queue := s.queue[1..]);
      if u !in s.downloading && u !in s.cache then
        s1.(downloading := s.downloading + {u}, pending := s.pending + [Fetch(u, g)])
      else AdvancedAsWritten(s1, g)
  }

  function CompletedAsWritten(s: State, i: nat, o: Outcome): State
    requires i < |s.pending|
  {
    var f := s.pending[i];
    AdvancedAsWritten(Settled(s.(pending := RemoveAt(s.pending, i)), f, o), f.scope)
  }

  /** Within the current scope the two loops agree; they differ only in a cancelled one. */
  lemma {:induction false} AsWrittenAgreesInScope(s: State)
    ensures AdvancedAsWritten(s, s.scope) == Advanced(s, s.scope)
    decreases |s.queue|
  {
    if s.queue != [] {
      var u := s.queue[0];
      if u in s.downloading || u in s.cache {
        AsWrittenAgreesInScope(s.(queue := s.queue[1..]));
      }
    }
  }

  const U1: string := "u1"
  const U2: string := "u2"
  const U3: string := "u3"

  /** Queue u1, clear, queue u2: the fetch of u1 (scope 0) and the fetch of u2 (scope 1)
      are in flight, and the loop of scope 1 holds the flag. */
  const RaceStart: State := State(map[], map[], {U2}, [], true, 1, [Fetch(U1, 0), Fetch(U2, 1)])

  lemma RaceSetup()
    ensures Queued(Cleared(Queued(Initial, U1)), U2) == RaceStart
  {
    var s1 := Queued(Initial, U1);
    assert s1.pending == [Fetch(U1, 0)] && s1.downloading == {U1} && s1.queue == [];
    var c := Cleared(s1);
    assert c.queue + [U2] == [U2];
  }

  /** The stale fetch of u1 ends with decodable bytes. */
  const StaleDone: Outcome := Bytes([1], true)

  /** As written: queue u1, clear, queue u2, let u1's stale fetch finish, queue u3. The
      stale loop cleared the flag of the loop fetching u2, so a second loop starts and two
      fetches of the current scope are in flight at once. */
  lemma StaleLoopClearsFlag()
    ensures var s1 := Queued(Initial, U1);
      var s2 := Queued(Cleared(s1), U2);
      var s3 := CompletedAsWritten(s2, 0, StaleDone);
      var s4 := Queued(s3, U3);
      s4.pending == [Fetch(U2, 1), Fetch(U3, 1)] && InScope(s4.pending, s4.scope) == 2 && !Inv(s4)
  {
    RaceSetup();
    var s3 := CompletedAsWritten(RaceStart, 0, StaleDone);
    assert s3 == State(map[], map[], {U2}, [], false, 1, [Fetch(U2, 1)]) by {
      assert RemoveAt(RaceStart.pending, 0) == [Fetch(U2, 1)];
    }
    var s4 := Queued(s3, U3);
    assert s4.pending == [Fetch(U2, 1), Fetch(U3, 1)] by {
      assert U3 != U2;
      assert (s3.queue + [U3])[0] == U3;
    }
    assert InScope([Fetch(U2, 1)], 1) == 1;
  }

  /** With the flag cleared only by the current loop, the same steps keep one loop: u3
      waits in the queue behind the fetch of u2. */
  lemma CurrentLoopKeepsFlag()
    ensures var s1 := Queued(Initial, U1);
      var s2 := Queued(Cleared(s1), U2);
      var s3 := Completed(s2, 0, StaleDone);
      var s4 := Queued(s3, U3);
      s4.pending == [Fetch(U2, 1)] && s4.queue == [U3] && Inv(s4)
  {
    RaceSetup();
    var s3 := Completed(RaceStart, 0, StaleDone);
    assert s3 == State(map[], map[], {U2}, [], true, 1, [Fetch(U2, 1)]) by {
      assert RemoveAt(RaceStart.pending, 0) == [Fetch(U2, 1)];
    }
    var s4 := Queued(s3, U3);
    assert s4.queue == [] + [U3];
    assert InScope([Fetch(U2, 1)], 1) == 1;
  }

  // ---------------------------------------------------------------------------------
  // The queue as the window holds it

  /** The fields of the window that hold the download state. */
  class DownloadQueue {
    var cache: map<string, seq<byte>>
    var errors: map<string, string>
    var downloading: set<string>
    var queue: seq<string>
    var processing: bool
    var scope: nat
    var pending: seq<Fetch>

    function Model(): State
      reads this
    {
      State(cache, errors, downloading, queue, processing, scope, pending)
    }

    predicate Valid()
      reads this
    {
      Inv(Model())
    }

    constructor ()
      ensures Model() == Initial && Valid()
    {
      cache, errors, downloading, queue := map[], map[], {}, [];
      processing, scope, pending := false, 0, [];
    }

    /** ClearDownloads. */
    method Clear()
      requires Valid()
      modifies this
      ensures Model() == Cleared(old(Model())) && Valid()
    {
      ClearedInv(Model());
      scope := scope + 1;
      queue := [];
      downloading := {};
      processing := false;
    }

    /** The body of the drain loop started in scope g, from where it resumes, with the
        corrected finally block of Advanced: the flag is cleared only while g is the
        current scope. The source clears it in any case: AdvancedAsWritten, and
        StaleLoopClearsFlag for the second loop that this lets start. */
    method Advance(g: nat)
      modifies this
      ensures Model() == Advanced(old(Model()), g)
    {
      while queue != [] && g == scope
        invariant Advanced(Model(), g) == Advanced(old(Model()), g)
        decreases |queue|
      {
        var u := queue[0];
        queue := queue[1..];
        if u !in downloading && u !in cache {
          downloading := downloading + {u};
          pending := pending + [Fetch(u, g)];
          return;
        }
      }
      if g == scope {
        processing := false;
      }
    }

    /** ProcessDownloadQueue. */
    method Drain()
      requires Valid()
      modifies this
      ensures Model() == Drained(old(Model())) && Valid()
    {
      DrainedInv(Model());
      if processing || queue == [] {
        return;
      }
      processing := true;
      Advance(scope);
    }

    /** QueueDownloadByPriority. */
    method Queue(url: string)
      requires Valid()
      modifies this
      ensures Model() == Queued(old(Model()), url) && Valid()
    {
      QueuedInv(Model(), url);
      if url in downloading || url in cache || url in queue {
        return;
      }
      queue := queue + [url];
      Drain();
    }

    /** The end of StartDownload for the i-th fetch in flight, then the rest of the drain
        loop that awaited it, run by the corrected Advance: a stale loop leaves the flag
        of the current one alone (CompletedAsWritten is the source's version). */
    method Complete(i: nat, o: Outcome)
      requires Valid() && i < |pending|
      modifies this
      ensures Model() == Completed(old(Model()), i, o) && Valid()
    {
      CompletedInv(Model(), i, o);
      var f := pending[i];
      pending := RemoveAt(pending, i);
      Settle(f, o);
      Advance(f.scope);
    }

    /** The outcome handling of StartDownload for fetch f. */
    method Settle(f: Fetch, o: Outcome)
      modifies this
      ensures Model() == Settled(old(Model()), f, o)
    {
      var stale := f.scope != scope;
      if o.Bytes? && !stale && o.data != [] && o.decodes {
        cache := cache[f.url := o.data];
      }
      match ErrorFor(o, stale) {
        case Some(text) => errors := errors[f.url := text];
        case None => errors := errors - {f.url};
      }
      downloading := downloading - {f.url};
    }

    /** GetCachedTexture. */
    method CachedTexture(url: string) returns (r: Option<seq<byte>>)
      ensures r.Some? <==> url in cache
      ensures r.Some? ==> r.value == cache[url]
    {
      r := if url in cache then Some(cache[url]) else None;
    }
  }
}
