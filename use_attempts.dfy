/** The attempt history hook (hooks/useAttempts.ts): newest attempt first, persisted to the
    `LocalStore` after every change. */
module UseAttempts {
  import opened Types
  import opened Storage

  class AttemptsHook {
    const store: LocalStore
    var attempts: seq<TestAttempt>

    /** What the component has and what it last persisted agree. */
    ghost predicate Persisted()
      reads this, store
    {
      store.attempts == attempts
    }

    /** The initial state, read from storage. */
    constructor (store: LocalStore)
      ensures this.store == store && attempts == store.attempts
      ensures Persisted()
    {
      this.store := store;
      attempts := store.attempts;
    }

    /** `addAttempt`: the attempt goes in front of the unchanged history, and the new list
        is persisted. */
    method AddAttempt(attempt: TestAttempt)
      modifies this, store
      ensures attempts == [attempt] + old(attempts)
      ensures |attempts| == |old(attempts)| + 1 && attempts[0] == attempt && attempts[1..] == old(attempts)
      ensures Persisted() && store.customTests == old(store.customTests)
    {
      var next := [attempt] + attempts;
      store.attempts := next;
      attempts := next;
    }
  }
}
