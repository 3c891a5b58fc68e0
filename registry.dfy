/**
 * The per-user task registry of the bot: `user_tasks` marks the users with a
 * job in progress, `user_limits` counts the jobs each user has started.
 *
 * `State` and its transition functions are the specification; the class
 * `TaskRegistry` holds the two dictionaries as fields and updates them in
 * place, as the handlers do.
 */
module Registry {
  import opened Wrappers

  type UserId = int

  /** The message holding the uploaded document. */
  type MessageRef = int

  /** A pending job: the document a user sent (`{"file": message}`). */
  datatype Task = Task(file: MessageRef)

  /** How `handle_doc` answers an upload. */
  datatype Outcome =
    | Started        // "Choose language"
    | Busy           // "One task at a time."
    | LimitReached   // "Daily limit reached."

  datatype State = State(tasks: map<UserId, Task>, limits: map<UserId, int>)

  /** `user_limits.get(uid, 0)`. */
  function Count(s: State, uid: UserId): int {
    if uid in s.limits then s.limits[uid] else 0
  }

  /** `user_tasks.get(uid)` is truthy: the stored task dictionary is never empty. */
  predicate Active(s: State, uid: UserId) {
    uid in s.tasks
  }

  /** The registry invariant: every count is between 1 and the limit, and every active user has one. */
  ghost predicate Inv(s: State, dailyLimit: int) {
    (forall u :: u in s.limits ==> 1 <= s.limits[u] <= dailyLimit) &&
    (forall u :: u in s.tasks ==> u in s.limits)
  }

  /** The check-then-set of `handle_doc`. */
  function Start(s: State, uid: UserId, file: MessageRef, dailyLimit: int): (res: (Outcome, State))
    ensures Active(s, uid) ==> res == (Busy, s)
    ensures !Active(s, uid) && Count(s, uid) >= dailyLimit ==> res == (LimitReached, s)
    ensures !Active(s, uid) && Count(s, uid) < dailyLimit ==>
              res.0 == Started && uid in res.1.tasks && res.1.tasks[uid] == Task(file) &&
              Count(res.1, uid) == Count(s, uid) + 1
    ensures forall v :: v != uid ==>
              Count(res.1, v) == Count(s, v) && (Active(res.1, v) <==> Active(s, v)) &&
              (v in s.tasks ==> res.1.tasks[v] == s.tasks[v])
  {
    if uid in s.tasks then (Busy, s)
    else
      var used := if uid in s.limits then s.limits[uid] else 0;
      if used >= dailyLimit then (LimitReached, s)
      else (Started, State(s.tasks[uid := Task(file)], s.limits[uid := used + 1]))
  }

  /** `user_tasks.pop(uid, None)`: the `finally` of `handle_lang` and the `cancel` handler. */
  function Release(s: State, uid: UserId): (s': State)
    ensures !Active(s', uid)
    ensures s'.limits == s.limits
    ensures forall v :: v != uid ==>
              (Active(s', v) <==> Active(s, v)) && (v in s.tasks ==> s'.tasks[v] == s.tasks[v])
  {
    State(s.tasks - {uid}, s.limits)
  }

  /** `task = user_tasks.get(uid)` in `handle_lang`; `None` leads to "No task found". */
  function Lookup(s: State, uid: UserId): (t: Option<Task>)
    ensures t.Some? <==> Active(s, uid)
    ensures t.Some? ==> t.value == s.tasks[uid]
  {
    if uid in s.tasks then Some(s.tasks[uid]) else None
  }

  // ---- Properties of the transitions ----

  /** Both transitions keep the invariant, for every limit. */
  lemma StartKeepsInv(s: State, uid: UserId, file: MessageRef, dailyLimit: int)
    requires Inv(s, dailyLimit)
    ensures Inv(Start(s, uid, file, dailyLimit).1, dailyLimit)
  {
  }

  lemma ReleaseKeepsInv(s: State, uid: UserId, dailyLimit: int)
    requires Inv(s, dailyLimit)
    ensures Inv(Release(s, uid), dailyLimit)
  {
  }

  /** Counts never go down: starting adds at most one, releasing refunds nothing. */
  lemma CountsNeverDecrease(s: State, uid: UserId, file: MessageRef, dailyLimit: int, v: UserId)
    ensures Count(s, v) <= Count(Start(s, uid, file, dailyLimit).1, v) <= Count(s, v) + 1
    ensures Count(Release(s, uid), v) == Count(s, v)
  {
  }

  /** Releasing twice is releasing once; releasing an idle user changes nothing. */
  lemma ReleaseIdempotent(s: State, uid: UserId)
    ensures Release(Release(s, uid), uid) == Release(s, uid)
    ensures !Active(s, uid) ==> Release(s, uid) == s
  {
  }

  /**
   * What `handle_lang` finds: after a start, the task of the uploaded
   * document; after a refusal, whatever was there before; after the user's
   * job ends or is cancelled, nothing ("No task found").
   */
  lemma TaskHandOff(s: State, uid: UserId, file: MessageRef, dailyLimit: int)
    ensures var (o, s1) := Start(s, uid, file, dailyLimit);
            (o == Started ==> Lookup(s1, uid) == Some(Task(file))) &&
            (o != Started ==> Lookup(s1, uid) == Lookup(s, uid))
    ensures Lookup(Release(s, uid), uid) == None
  {
  }

  /** Two uploads in a row from one user: at most one starts a job; exactly one if the first may. */
  lemma StartTwice(s: State, uid: UserId, f1: MessageRef, f2: MessageRef, dailyLimit: int)
    ensures var (o1, s1) := Start(s, uid, f1, dailyLimit);
            var (o2, _) := Start(s1, uid, f2, dailyLimit);
            !(o1 == Started && o2 == Started) &&
            (!Active(s, uid) && Count(s, uid) < dailyLimit ==> o1 == Started && o2 == Busy)
  {
  }

  /** `n` jobs by `uid`, each started and then finished. */
  function Cycles(s: State, uid: UserId, file: MessageRef, dailyLimit: int, n: nat): State
    decreases n
  {
    if n == 0 then s else Cycles(Release(Start(s, uid, file, dailyLimit).1, uid), uid, file, dailyLimit, n - 1)
  }

  /** While quota remains, each started-and-finished job adds exactly one to the count. */
  lemma {:induction false} CyclesCount(s: State, uid: UserId, file: MessageRef, dailyLimit: int, n: nat)
    requires !Active(s, uid) && Count(s, uid) + n <= dailyLimit
    ensures !Active(Cycles(s, uid, file, dailyLimit, n), uid)
    ensures Count(Cycles(s, uid, file, dailyLimit, n), uid) == Count(s, uid) + n
    decreases n
  {
    if n > 0 {
      var s1 := Release(Start(s, uid, file, dailyLimit).1, uid);
      assert Count(s1, uid) == Count(s, uid) + 1;
      CyclesCount(s1, uid, file, dailyLimit, n - 1);
    }
  }

  /**
   * A fresh user who has started and finished `dailyLimit` jobs is refused the
   * next one: the quota is never refunded and never reset.
   */
  lemma QuotaExhausted(s: State, uid: UserId, file: MessageRef, dailyLimit: nat)
    requires !Active(s, uid) && Count(s, uid) == 0
    ensures var s' := Cycles(s, uid, file, dailyLimit, dailyLimit);
            Start(s', uid, file, dailyLimit) == (LimitReached, s')
  {
    CyclesCount(s, uid, file, dailyLimit, dailyLimit);
  }

  /**
   * The registry as the handlers hold it: two dictionaries updated in place and
   * the configured `DAILY_LIMIT`.
   */
  class TaskRegistry {
    var userTasks: map<UserId, Task>
    var userLimits: map<UserId, int>
    const dailyLimit: int

    function Model(): State
      reads this
    {
      State(userTasks, userLimits)
    }

    ghost predicate Valid()
      reads this
    {
      Inv(Model(), dailyLimit)
    }

    /** Both dictionaries start empty. */
    constructor (dailyLimit: int)
      ensures Valid()
      ensures userTasks == map[] && userLimits == map[] && this.dailyLimit == dailyLimit
    {
      userTasks := map[];
      userLimits := map[];
      this.dailyLimit := dailyLimit;
    }

    /** `handle_doc`: refuse a busy user, then a user at the limit, else mark active and count. */
    method HandleDoc(uid: UserId, file: MessageRef) returns (outcome: Outcome)
      requires Valid()
      modifies this
      ensures Valid()
      ensures (outcome, Model()) == Start(old(Model()), uid, file, dailyLimit)
      ensures outcome == Started ==> TaskOf(uid) == Some(Task(file))
    {
      if uid in userTasks {
        return Busy;
      }
      var used := if uid in userLimits then userLimits[uid] else 0;
      if used >= dailyLimit {
        return LimitReached;
      }
      userTasks := userTasks[uid := Task(file)];
      userLimits := userLimits[uid := used + 1];
      outcome := Started;
      StartKeepsInv(old(Model()), uid, file, dailyLimit);
    }

    /** The task `handle_lang` works on, if the user has one. */
    function TaskOf(uid: UserId): (t: Option<Task>)
      reads this
      ensures t == Lookup(Model(), uid)
    {
      if uid in userTasks then Some(userTasks[uid]) else None
    }

    /** The `finally` of `handle_lang`: the user's job is over, whatever happened inside the `try`. */
    method Finish(uid: UserId)
      requires Valid()
      modifies this
      ensures Valid()
      ensures Model() == Release(old(Model()), uid)
      ensures TaskOf(uid) == None
    {
      userTasks := userTasks - {uid};
    }

    /** The `cancel` handler: drop the pending job; the count stays. */
    method Cancel(uid: UserId)
      requires Valid()
      modifies this
      ensures Valid()
      ensures Model() == Release(old(Model()), uid)
      ensures TaskOf(uid) == None
    {
      userTasks := userTasks - {uid};
    }
  }
}
