/** The catalogue hook (hooks/useTests.ts): the built-in tests followed by the custom tests
    this device keeps. The custom list lives in the component and, after every change, in
    the `LocalStore`. The built-in list is a parameter, since its data file is not part of
    this model. */
module UseTests {
  import opened Wrappers
  import opened Types
  import opened Storage
  import opened Seqs

  /** The predicate `(item) => item.id === testId` */
  function HasId(testId: string): MockTest -> bool
  {
    (t: MockTest) => t.id == testId
  }

  /** `tests.find((item) => item.id === testId)` */
  function FindTest(tests: seq<MockTest>, testId: string): Option<MockTest>
  {
    FindFirst(HasId(testId), tests)
  }

  function Replacement(test: MockTest): MockTest -> MockTest
  {
    (t: MockTest) => test
  }

  /** `addTest`'s next list: replace every entry with the test's id, or put the test in
      front when there is none. */
  function Upsert(prev: seq<MockTest>, test: MockTest): seq<MockTest>
  {
    if exists i :: 0 <= i < |prev| && prev[i].id == test.id then MapWhere(prev, TestId, test.id, Replacement(test))
    else [test] + prev
  }

  /** `removeTest`'s next list. */
  function RemoveById(prev: seq<MockTest>, testId: string): seq<MockTest>
  {
    Filter(KeyIsNot(TestId, testId), prev)
  }

  /** An existing id is replaced in place (same length, every other entry untouched); a new
      id is put in front of the unchanged list. */
  lemma UpsertSpec(prev: seq<MockTest>, test: MockTest)
    ensures (exists i :: 0 <= i < |prev| && prev[i].id == test.id) ==>
      var r := Upsert(prev, test);
      && |r| == |prev|
      && (forall i :: 0 <= i < |prev| && prev[i].id != test.id ==> r[i] == prev[i])
      && (forall i :: 0 <= i < |prev| && prev[i].id == test.id ==> r[i] == test)
    ensures (forall i :: 0 <= i < |prev| ==> prev[i].id != test.id) ==> Upsert(prev, test) == [test] + prev
  {
  }

  /** After an upsert, looking the id up finds the upserted test. */
  lemma UpsertFinds(prev: seq<MockTest>, test: MockTest)
    ensures FindTest(Upsert(prev, test), test.id) == Some(test)
  {
    var r := Upsert(prev, test);
    if exists i :: 0 <= i < |prev| && prev[i].id == test.id {
      var k := FindIndex(HasId(test.id), prev);
      assert r[k] == test;
      assert FindIndex(HasId(test.id), r) == k by {
        forall j | 0 <= j < k ensures !HasId(test.id)(r[j]) {
          assert r[j] == prev[j];
        }
      }
    } else {
      assert HasId(test.id)(r[0]);
    }
  }

  /** An upsert leaves the lookup of every other id as it was. */
  lemma UpsertKeepsOtherLookups(prev: seq<MockTest>, test: MockTest, otherId: string)
    requires otherId != test.id
    ensures FindTest(Upsert(prev, test), otherId) == FindTest(prev, otherId)
  {
    var r := Upsert(prev, test);
    if exists i :: 0 <= i < |prev| && prev[i].id == test.id {
      assert forall i :: 0 <= i < |prev| && (HasId(otherId)(prev[i]) || HasId(otherId)(r[i])) ==> r[i] == prev[i];
      FindFirstAgrees(HasId(otherId), prev, r);
    } else {
      assert r[1..] == prev;
      FindFirstTail(HasId(otherId), r);
    }
  }

  /** Upserting the same test twice is upserting it once. */
  lemma UpsertIdempotent(prev: seq<MockTest>, test: MockTest)
    ensures Upsert(Upsert(prev, test), test) == Upsert(prev, test)
  {
    var r := Upsert(prev, test);
    if exists i :: 0 <= i < |prev| && prev[i].id == test.id {
      var i :| 0 <= i < |prev| && prev[i].id == test.id;
      assert r[i].id == test.id;
    } else {
      assert r[0].id == test.id;
    }
  }

  /** Upserting keeps ids unique. */
  lemma UpsertKeepsUniqueIds(prev: seq<MockTest>, test: MockTest)
    requires UniqueKeys(prev, TestId)
    ensures UniqueKeys(Upsert(prev, test), TestId)
  {
    var r := Upsert(prev, test);
    if !exists i :: 0 <= i < |prev| && prev[i].id == test.id {
      forall i, j | 0 <= i < j < |r| ensures r[i].id != r[j].id {
        if i == 0 {
          assert r[j] == prev[j - 1];
        } else {
          assert r[i] == prev[i - 1] && r[j] == prev[j - 1];
        }
      }
    }
  }

  /** Removing keeps exactly the entries with another id, in order; afterwards the id is
      not found. */
  lemma RemoveByIdSpec(prev: seq<MockTest>, testId: string)
    ensures var r := RemoveById(prev, testId);
      && IsSubsequence(r, prev)
      && (forall i :: 0 <= i < |r| ==> r[i].id != testId)
      && (forall i :: 0 <= i < |prev| && prev[i].id != testId ==> prev[i] in r)
      && FindTest(r, testId) == None
  {
    RemoveByKey(prev, TestId, testId);
  }

  /** Removing leaves the lookup of every other id as it was. */
  lemma RemoveKeepsOtherLookups(prev: seq<MockTest>, testId: string, otherId: string)
    requires otherId != testId
    ensures FindTest(RemoveById(prev, testId), otherId) == FindTest(prev, otherId)
  {
    forall t | HasId(otherId)(t) ensures KeyIsNot(TestId, testId)(t) {
      assert TestId(t) == otherId;
    }
    FindFirstFilter(KeyIsNot(TestId, testId), HasId(otherId), prev);
  }

  /** Removing a test that was just added under a new id gives the list back. */
  lemma RemoveUndoesAdd(prev: seq<MockTest>, test: MockTest)
    requires forall i :: 0 <= i < |prev| ==> prev[i].id != test.id
    ensures RemoveById(Upsert(prev, test), test.id) == prev
  {
    assert Upsert(prev, test)[1..] == prev;
    FilterKeepsAll(KeyIsNot(TestId, test.id), prev);
  }

  /** The hook's state: the built-in list and the custom list. */
  class TestsHook {
    const builtIn: seq<MockTest>
    const store: LocalStore
    var customTests: seq<MockTest>

    /** What the component has and what it last persisted agree. */
    ghost predicate Persisted()
      reads this, store
    {
      store.customTests == customTests
    }

    /** `allTests`: the built-in tests, then the custom ones. */
    function Tests(): (tests: seq<MockTest>)
      reads this
      ensures |tests| == |builtIn| + |customTests|
      ensures tests[..|builtIn|] == builtIn && tests[|builtIn|..] == customTests
    {
      builtIn + customTests
    }

    /** The initial state, read from storage. */
    constructor (builtIn: seq<MockTest>, store: LocalStore)
      ensures this.builtIn == builtIn && this.store == store
      ensures customTests == store.customTests
      ensures Persisted()
    {
      this.builtIn := builtIn;
      this.store := store;
      customTests := store.customTests;
    }

    /** `addTest`: upsert by id, then persist the new list. */
    method AddTest(test: MockTest)
      modifies this, store
      ensures customTests == Upsert(old(customTests), test)
      ensures Persisted() && store.attempts == old(store.attempts)
      ensures (forall i :: 0 <= i < |builtIn| ==> builtIn[i].id != test.id) ==> FindTest(Tests(), test.id) == Some(test)
    {
      var next := Upsert(customTests, test);
      customTests := next;
      store.customTests := next;
      UpsertFinds(old(customTests), test);
      if forall i :: 0 <= i < |builtIn| ==> builtIn[i].id != test.id {
        FindAfterPrefix(builtIn, customTests, test.id);
      }
    }

    /** `removeTest`: drop every custom test with the id, then persist the new list. */
    method RemoveTest(testId: string)
      modifies this, store
      ensures customTests == RemoveById(old(customTests), testId)
      ensures Persisted() && store.attempts == old(store.attempts)
      ensures FindTest(customTests, testId) == None
    {
      var next := RemoveById(customTests, testId);
      customTests := next;
      store.customTests := next;
      RemoveByIdSpec(old(customTests), testId);
    }
  }

  /** Looking up in a concatenation past a prefix without the id looks up in the rest. */
  lemma FindAfterPrefix(prefix: seq<MockTest>, rest: seq<MockTest>, testId: string)
    requires forall i :: 0 <= i < |prefix| ==> prefix[i].id != testId
    ensures FindTest(prefix + rest, testId) == FindTest(rest, testId)
  {
    FindFirstAfterPrefix(HasId(testId), prefix, rest);
  }
}
