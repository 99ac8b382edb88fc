/**
 The per-session view counter (`initViewCounter`) and its reset
 (`resetViewCounter`). `Load` and `Reset` say what one call does to the page
 state; `InitViewCounter` and `ResetViewCounter` change a `Page` in place
 and are proved equal to them; the lemmas state what the counter promises
 across calls.
 */
module ViewCounter {
  import opened Storage
  import Animation

  /** The storage call that throws during a load, if any. A throw skips the
      rest of the `try` block; the handler then shows "1". */
  datatype Fault =
    | NoFault
    | ReadFault        // `getItem('pageViews')` or `getItem('sessionViewed')`
    | CountWriteFault  // `setItem('pageViews', …)`
    | FlagWriteFault   // `setItem('sessionViewed', 'true')`
    | VisitWriteFault  // `setItem('visitData', …)`

  /** What a load takes from the browser besides the stores: whether the
      Storage API exists, the clock as an opaque ISO-8601 text, the user agent,
      and which storage call (if any) throws. */
  datatype LoadEnv = LoadEnv(storageDefined: bool, now: string, userAgent: string, fault: Fault)

  const FlagText: string := "true"
  const SnippetLength: nat := 50

  /** The stored count as the load reads it: a numeral gives its value; an
      absent, empty or non-numeric entry gives 0. */
  function StoredCount(local: Store): (c: int)
    ensures PageViewsKey in local && local[PageViewsKey].Number? ==> c == local[PageViewsKey].n
    ensures !(PageViewsKey in local && local[PageViewsKey].Number?) ==> c == 0
  {
    if PageViewsKey in local then
      match local[PageViewsKey]
      case Number(n) => n
      case _ => 0
    else 0
  }

  /** `sessionStorage.getItem('sessionViewed')` is truthy: present and not the empty text. */
  predicate FlagSet(session: Store)
    ensures FlagSet(session) ==> SessionViewedKey in session
    ensures SessionViewedKey in session && session[SessionViewedKey] == Text(FlagText) ==> FlagSet(session)
    ensures SessionViewedKey in session && session[SessionViewedKey] == Text("") ==> !FlagSet(session)
    ensures SessionViewedKey in session && session[SessionViewedKey] != Text("") ==> FlagSet(session)
  {
    SessionViewedKey in session && session[SessionViewedKey] != Text("")
  }

  /** `navigator.userAgent.substring(0, 50)`. */
  function Snippet(userAgent: string): (r: string)
    ensures |r| <= SnippetLength
    ensures r <= userAgent
    ensures |userAgent| <= SnippetLength ==> r == userAgent
    ensures |userAgent| > SnippetLength ==> |r| == SnippetLength
  {
    if |userAgent| <= SnippetLength then userAgent else userAgent[..SnippetLength]
  }

  /** One run of `initViewCounter` on a page whose element exists iff `hasElement`. */
  function Load(s: PageState, hasElement: bool, env: LoadEnv): (r: PageState)
    ensures |r.shown| >= |s.shown| && r.shown[..|s.shown|] == s.shown
    ensures r.local.Keys <= s.local.Keys + {PageViewsKey, VisitDataKey}
    ensures r.session.Keys <= s.session.Keys + {SessionViewedKey}
    ensures FlagSet(s.session) ==> r.local == s.local && r.session == s.session
    ensures r.local != s.local ==> hasElement && env.storageDefined && !FlagSet(s.session)
  {
    if !hasElement then s
    else if !env.storageDefined then s.(shown := s.shown + [0])
    else if env.fault == ReadFault then s.(shown := s.shown + [1])
    else
      var count := StoredCount(s.local);
      if FlagSet(s.session) then s.(shown := s.shown + Animation.Frames(count))
      else
        var c := count + 1;
        if env.fault == CountWriteFault then s.(shown := s.shown + [1])
        else
          var local1 := s.local[PageViewsKey := Number(c)];
          if env.fault == FlagWriteFault then PageState(local1, s.session, s.shown + [1])
          else
            var session1 := s.session[SessionViewedKey := Text(FlagText)];
            if env.fault == VisitWriteFault then PageState(local1, session1, s.shown + [1])
            else
              var visit := VisitData(c, env.now, Snippet(env.userAgent));
              PageState(local1[VisitDataKey := VisitRecord(visit)], session1, s.shown + Animation.Frames(c))
  }

  const ResetLocalKeys: set<string> := {PageViewsKey, VisitDataKey, LastMetricsKey}

  /** One run of `resetViewCounter`. When the store throws (`storageOk` false) it
      throws on the first removal, and the handler swallows it. */
  function Reset(s: PageState, hasElement: bool, storageOk: bool): (r: PageState)
    ensures storageOk ==> r.local.Keys !! ResetLocalKeys && SessionViewedKey !in r.session && !FlagSet(r.session)
    ensures r.local.Keys <= s.local.Keys && r.session.Keys <= s.session.Keys
    ensures forall k :: k in r.local ==> r.local[k] == s.local[k]
    ensures forall k :: k in r.session ==> r.session[k] == s.session[k]
    ensures !storageOk ==> r == s
  {
    if !storageOk then s
    else PageState(s.local - ResetLocalKeys, s.session - {SessionViewedKey},
                   if hasElement then s.shown + [0] else s.shown)
  }

  /** A load that meets no missing element, no missing Storage API and no throw. */
  predicate CleanLoad(hasElement: bool, env: LoadEnv)
  {
    hasElement && env.storageDefined && env.fault == NoFault
  }

  function Last(s: seq<int>): int
    requires |s| > 0
  {
    s[|s| - 1]
  }

  // ---------------------------------------------------------------------------
  // The imperative operations, proved against Load and Reset.

  /** `initViewCounter`, updating the page's stores and element in place. */
  method InitViewCounter(page: Page, env: LoadEnv)
    modifies page
    ensures page.State() == Load(old(page.State()), page.hasViewCount, env)
  {
    if !page.hasViewCount {
      return;
    }
    if !env.storageDefined {
      page.shown := page.shown + [0];
      return;
    }
    if env.fault == ReadFault {
      page.shown := page.shown + [1];
      return;
    }
    var viewCount := StoredCount(page.local);
    var sessionViewed := FlagSet(page.session);
    if !sessionViewed {
      viewCount := viewCount + 1;
      if env.fault == CountWriteFault {
        page.shown := page.shown + [1];
        return;
      }
      page.local := page.local[PageViewsKey := Number(viewCount)];
      if env.fault == FlagWriteFault {
        page.shown := page.shown + [1];
        return;
      }
      page.session := page.session[SessionViewedKey := Text(FlagText)];
      if env.fault == VisitWriteFault {
        page.shown := page.shown + [1];
        return;
      }
      var visit := VisitData(viewCount, env.now, Snippet(env.userAgent));
      page.local := page.local[VisitDataKey := VisitRecord(visit)];
    }
    var frames := Animation.Animate(viewCount);
    page.shown := page.shown + frames;
  }

  /** `resetViewCounter`, removing the four keys in place. */
  method ResetViewCounter(page: Page, storageOk: bool)
    modifies page
    ensures page.State() == Reset(old(page.State()), page.hasViewCount, storageOk)
  {
    if !storageOk {
      return;
    }
    ghost var local0 := page.local;
    page.local := page.local - {PageViewsKey};
    page.local := page.local - {VisitDataKey};
    page.local := page.local - {LastMetricsKey};
    assert page.local == local0 - ResetLocalKeys;
    page.session := page.session - {SessionViewedKey};
    if page.hasViewCount {
      page.shown := page.shown + [0];
    }
  }

  // ---------------------------------------------------------------------------
  // What a load promises.

  /** First load of a session: the count goes up by one and is stored, the
      flag is set, a visit record with the new count and at most 50 characters
      of user agent is stored, and the element ends on the new count. */
  lemma FirstLoadInSession(s: PageState, hasElement: bool, env: LoadEnv)
    requires CleanLoad(hasElement, env) && !FlagSet(s.session)
    ensures var r := Load(s, hasElement, env);
      var c := StoredCount(s.local) + 1;
      && r.local[PageViewsKey] == Number(c)
      && r.local[VisitDataKey] == VisitRecord(VisitData(c, env.now, Snippet(env.userAgent)))
      && |r.local[VisitDataKey].visit.userAgent| <= SnippetLength
      && r.local.Keys == s.local.Keys + {PageViewsKey, VisitDataKey}
      && (forall k :: k in s.local && k != PageViewsKey && k != VisitDataKey ==> r.local[k] == s.local[k])
      && r.session == s.session[SessionViewedKey := Text(FlagText)]
      && FlagSet(r.session)
      && |r.shown| > |s.shown| && r.shown[..|s.shown|] == s.shown
      && Last(r.shown) == c
  {
    var c := StoredCount(s.local) + 1;
    var local1 := s.local[PageViewsKey := Number(c)][VisitDataKey := VisitRecord(VisitData(c, env.now, Snippet(env.userAgent)))];
    var frames := Animation.Frames(c);
    assert Load(s, hasElement, env) == PageState(local1, s.session[SessionViewedKey := Text(FlagText)], s.shown + frames);
    Animation.FramesEndOnValue(c);
    assert (s.shown + frames)[..|s.shown|] == s.shown;
  }

  /** A load in a session that already counted writes nothing to either store
      and ends the element on the stored count. */
  lemma LoadInCountedSession(s: PageState, hasElement: bool, env: LoadEnv)
    requires FlagSet(s.session)
    ensures var r := Load(s, hasElement, env);
      && r.local == s.local
      && r.session == s.session
      && (CleanLoad(hasElement, env) ==> |r.shown| > |s.shown| && Last(r.shown) == StoredCount(s.local))
  {
    Animation.FramesEndOnValue(StoredCount(s.local));
  }

  /** An absent or malformed count reads as 0, so the first counting load of a
      fresh store stores 1 and shows 1. */
  lemma FreshStoreCountsOne(s: PageState, hasElement: bool, env: LoadEnv)
    requires CleanLoad(hasElement, env) && !FlagSet(s.session)
    requires PageViewsKey !in s.local || !s.local[PageViewsKey].Number?
    ensures var r := Load(s, hasElement, env);
      && r.local[PageViewsKey] == Number(1)
      && r.shown == s.shown + [1]
  {
    assert Animation.Frames(1) == [1];
  }

  /** No element: neither store is read or written and nothing is shown. */
  lemma MissingElementTouchesNothing(s: PageState, env: LoadEnv)
    ensures Load(s, false, env) == s
  {
  }

  /** No Storage API: the element shows 0 and nothing is written. */
  lemma NoStorageShowsZero(s: PageState, env: LoadEnv)
    requires !env.storageDefined
    ensures Load(s, true, env) == s.(shown := s.shown + [0])
  {
  }

  /** A storage call that throws leaves the element on 1, and what was
      written before it is all that is written: at most the incremented count
      and the flag, never the visit record. */
  lemma FaultShowsOne(s: PageState, env: LoadEnv)
    requires env.storageDefined && env.fault != NoFault
    requires env.fault == ReadFault || !FlagSet(s.session)
    ensures var r := Load(s, true, env);
      && r.shown == s.shown + [1]
      && (r.local == s.local || r.local == s.local[PageViewsKey := Number(StoredCount(s.local) + 1)])
      && (r.session == s.session || r.session == s.session[SessionViewedKey := Text(FlagText)])
      && (r.session != s.session ==> env.fault == VisitWriteFault)
  {
  }

  /** A load never takes the stored count down: it keeps it or adds one. */
  lemma LoadCountStep(s: PageState, hasElement: bool, env: LoadEnv)
    ensures var r := Load(s, hasElement, env);
      StoredCount(r.local) == StoredCount(s.local) || StoredCount(r.local) == StoredCount(s.local) + 1
  {
  }

  /** A load writes no durable key but `pageViews` and `visitData`, and no
      session key but `sessionViewed`: every other entry keeps its value. */
  lemma LoadWritesOnlyItsKeys(s: PageState, hasElement: bool, env: LoadEnv)
    ensures var r := Load(s, hasElement, env);
      && (forall k :: k in s.local && k != PageViewsKey && k != VisitDataKey ==> k in r.local && r.local[k] == s.local[k])
      && (forall k :: k in s.session && k != SessionViewedKey ==> k in r.session && r.session[k] == s.session[k])
  {
  }

  /** Loads of one page, one after another, with no new session in between. */
  function LoadAll(s: PageState, hasElement: bool, envs: seq<LoadEnv>): PageState
    decreases |envs|
  {
    if envs == [] then s else LoadAll(Load(s, hasElement, envs[0]), hasElement, envs[1..])
  }

  /** Within one session the count goes up at most once, and if it went up the
      flag is set, provided no write of the flag itself throws (see
      FlagWriteFaultCountsAgain). Once the flag is set the durable store does
      not change at all. */
  lemma {:induction false} AtMostOncePerSession(s: PageState, hasElement: bool, envs: seq<LoadEnv>)
    requires forall i :: 0 <= i < |envs| ==> envs[i].fault != FlagWriteFault
    ensures var r := LoadAll(s, hasElement, envs);
      && (FlagSet(s.session) ==> r.local == s.local && FlagSet(r.session))
      && (StoredCount(r.local) == StoredCount(s.local)
          || (StoredCount(r.local) == StoredCount(s.local) + 1 && FlagSet(r.session)))
    decreases |envs|
  {
    if envs != [] {
      var s1 := Load(s, hasElement, envs[0]);
      AtMostOncePerSession(s1, hasElement, envs[1..]);
      if !FlagSet(s.session) && !FlagSet(s1.session) {
        assert s1.local == s.local;
      }
    }
  }

  /** The flag write is the one throw that breaks "once per session": the
      count is stored but the flag is not, so the next load of the same
      session counts again. */
  lemma FlagWriteFaultCountsAgain(s: PageState, now: string, userAgent: string)
    requires !FlagSet(s.session)
    ensures var e1 := LoadEnv(true, now, userAgent, FlagWriteFault);
      var e2 := LoadEnv(true, now, userAgent, NoFault);
      StoredCount(LoadAll(s, true, [e1, e2]).local) == StoredCount(s.local) + 2
  {
    var e1 := LoadEnv(true, now, userAgent, FlagWriteFault);
    var e2 := LoadEnv(true, now, userAgent, NoFault);
    var c := StoredCount(s.local) + 1;
    var s1 := Load(s, true, e1);
    assert s1 == PageState(s.local[PageViewsKey := Number(c)], s.session, s.shown + [1]);
    assert StoredCount(s1.local) == c;
    FirstLoadInSession(s1, true, e2);
    assert [e1, e2][1..] == [e2] && [e2][1..] == [];
    assert LoadAll(s, true, [e1, e2]) == LoadAll(s1, true, [e2]);
    assert LoadAll(s1, true, [e2]) == LoadAll(Load(s1, true, e2), true, []);
  }

  /** Reloading within a session after a counted load changes neither store
      and shows the same count again. */
  lemma ReloadIsIdempotent(s: PageState, e1: LoadEnv, e2: LoadEnv)
    requires CleanLoad(true, e1) && CleanLoad(true, e2)
    ensures var r1 := Load(s, true, e1);
      var r2 := Load(r1, true, e2);
      && r2.local == r1.local
      && r2.session == r1.session
      && |r1.shown| > 0 && |r2.shown| > 0
      && Last(r2.shown) == Last(r1.shown) == StoredCount(r1.local)
  {
    var r1 := Load(s, true, e1);
    if !FlagSet(s.session) {
      FirstLoadInSession(s, true, e1);
    } else {
      LoadInCountedSession(s, true, e1);
    }
    LoadInCountedSession(r1, true, e2);
  }

  /** The scenario of a fresh browser: the first load stores and shows 1, a
      reload in the same session keeps 1, and a load in a new session (the
      session store emptied) stores and shows 2. */
  lemma FreshBrowserScenario(e: LoadEnv)
    requires CleanLoad(true, e)
    ensures var s0 := PageState(map[], map[], []);
      var s1 := Load(s0, true, e);
      var s2 := Load(s1, true, e);
      var s3 := Load(s2.(session := map[]), true, e);
      && s1.local[PageViewsKey] == Number(1) && s1.shown == [1] && FlagSet(s1.session)
      && s2.local[PageViewsKey] == Number(1) && s2.shown == [1, 1]
      && s3.local[PageViewsKey] == Number(2) && Last(s3.shown) == 2
  {
    var s0 := PageState(map[], map[], []);
    FreshStoreCountsOne(s0, true, e);
    FirstLoadInSession(s0, true, e);
    var s1 := Load(s0, true, e);
    assert StoredCount(s1.local) == 1;
    LoadInCountedSession(s1, true, e);
    assert Animation.Frames(1) == [1];
    assert Load(s1, true, e).shown == s1.shown + Animation.Frames(1);
    NewSessionCountsAgain(Load(s1, true, e), e);
  }

  /** A new session (the session store emptied) counts again: the next clean
      load stores the stored count plus one and shows it. */
  lemma NewSessionCountsAgain(s: PageState, e: LoadEnv)
    requires CleanLoad(true, e)
    ensures var r := Load(s.(session := map[]), true, e);
      && r.local[PageViewsKey] == Number(StoredCount(s.local) + 1)
      && |r.shown| > 0 && Last(r.shown) == StoredCount(s.local) + 1
  {
    FirstLoadInSession(s.(session := map[]), true, e);
  }

  // ---------------------------------------------------------------------------
  // What a reset promises.

  /** Reset removes exactly `pageViews`, `visitData`, `lastVisitMetrics` and
      `sessionViewed`, keeps every other key with its value, and sets the
      element to 0 when there is one. */
  lemma ResetRemovesExactlyFourKeys(s: PageState, hasElement: bool)
    ensures var r := Reset(s, hasElement, true);
      && r.local.Keys == s.local.Keys - {PageViewsKey, VisitDataKey, LastMetricsKey}
      && (forall k :: k in r.local ==> r.local[k] == s.local[k])
      && r.session.Keys == s.session.Keys - {SessionViewedKey}
      && (forall k :: k in r.session ==> r.session[k] == s.session[k])
      && (hasElement ==> r.shown == s.shown + [0])
      && (!hasElement ==> r.shown == s.shown)
  {
  }

  /** After a reset, the next clean load counts from scratch: it stores 1 and
      shows 1. */
  lemma ResetThenLoadCountsOne(s: PageState, env: LoadEnv)
    requires CleanLoad(true, env)
    ensures var r := Load(Reset(s, true, true), true, env);
      && r.local[PageViewsKey] == Number(1)
      && Last(r.shown) == 1
  {
    var s1 := Reset(s, true, true);
    assert !FlagSet(s1.session);
    assert PageViewsKey !in s1.local;
    FreshStoreCountsOne(s1, true, env);
  }
}
