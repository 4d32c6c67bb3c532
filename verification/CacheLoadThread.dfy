/** The queue of keys that wait to be loaded into the cache, with the map that keeps a key from waiting twice. */
module CacheLoadThread {
  const CACHE_LOAD_QUEUE_MAX_SIZE: nat := 2048
  const CACHE_LOAD_NUM_ONE_TIME: nat := 256

  datatype Task = Task(kind: char, key: string, db: nat)

  function Keys(tasks: seq<Task>): set<string> {
    set i | 0 <= i < |tasks| :: tasks[i].key
  }

  ghost predicate Unique(tasks: seq<Task>) {
    forall i, j | 0 <= i < j < |tasks| :: tasks[i].key != tasks[j].key
  }

  lemma {:induction false} KeysConcat(a: seq<Task>, b: seq<Task>)
    ensures Keys(a + b) == Keys(a) + Keys(b)
  {
    forall k | k in Keys(a) + Keys(b)
      ensures k in Keys(a + b)
    {
      if k in Keys(a) {
        var i :| 0 <= i < |a| && a[i].key == k;
        assert (a + b)[i].key == k;
      } else {
        var i :| 0 <= i < |b| && b[i].key == k;
        assert (a + b)[|a| + i].key == k;
      }
    }
  }

  class PikaCacheLoadThread {
    var queue: seq<Task>
    // the keys of loadkeys_map_
    var waiting: set<string>
    // what the thread has taken and not yet loaded
    var inFlight: seq<Task>

    /** A key waits or is being loaded exactly when the map has it, and then only once. */
    ghost predicate Valid()
      reads this
    {
      && Unique(inFlight + queue)
      && waiting == Keys(inFlight + queue)
      && |queue| <= CACHE_LOAD_QUEUE_MAX_SIZE + 1
    }

    constructor ()
      ensures Valid() && queue == [] && inFlight == []
    {
      queue, inFlight, waiting := [], [], {};
    }

    /** Queues a key unless the queue is full or the key is already waiting or being loaded. */
    method Push(kind: char, key: string, db: nat)
      requires Valid()
      modifies this
      ensures Valid() && inFlight == old(inFlight)
      ensures queue == if old(|queue|) <= CACHE_LOAD_QUEUE_MAX_SIZE && key !in Keys(old(inFlight + queue))
                       then old(queue) + [Task(kind, key, db)] else old(queue)
    {
      if CACHE_LOAD_QUEUE_MAX_SIZE < |queue| {
        return;
      }
      if key !in waiting {
        ghost var before := inFlight + queue;
        queue := queue + [Task(kind, key, db)];
        waiting := waiting + {key};
        assert inFlight + queue == before + [Task(kind, key, db)];
        KeysConcat(before, [Task(kind, key, db)]);
        assert Keys([Task(kind, key, db)]) == {key} by {
          assert [Task(kind, key, db)][0].key == key;
        }
        forall i | 0 <= i < |before|
          ensures before[i].key != key
        {
          assert before[i].key in Keys(before);
        }
      }
    }

    /** Takes the oldest keys, at most 256 at a time. */
    method TakeBatch()
      requires Valid() && inFlight == []
      modifies this
      ensures Valid() && inFlight + queue == old(queue)
      ensures |inFlight| == if old(|queue|) < CACHE_LOAD_NUM_ONE_TIME then old(|queue|) else CACHE_LOAD_NUM_ONE_TIME
    {
      var i := 0;
      while i < CACHE_LOAD_NUM_ONE_TIME
        invariant 0 <= i <= CACHE_LOAD_NUM_ONE_TIME
        invariant inFlight + queue == old(queue) && waiting == old(waiting)
        invariant |inFlight| == if old(|queue|) < i then old(|queue|) else i
      {
        if |queue| > 0 {
          assert inFlight + queue == inFlight + [queue[0]] + queue[1..];
          inFlight, queue := inFlight + [queue[0]], queue[1..];
        }
        i := i + 1;
      }
      assert old(inFlight + queue) == old(queue);
    }

    /** The first key in flight has been loaded: it may be queued again. */
    method FinishOne() returns (t: Task)
      requires Valid() && inFlight != []
      modifies this
      ensures Valid() && t == old(inFlight)[0] && inFlight == old(inFlight)[1..] && queue == old(queue)
      ensures t.key !in Keys(inFlight + queue)
    {
      t := inFlight[0];
      ghost var rest := inFlight[1..] + queue;
      assert inFlight + queue == [t] + rest;
      KeysConcat([t], rest);
      assert Keys([t]) == {t.key} by {
        assert [t][0].key == t.key;
      }
      forall i | 0 <= i < |rest|
        ensures rest[i].key != t.key
      {
        assert (inFlight + queue)[0] == t && (inFlight + queue)[i + 1] == rest[i];
      }
      forall i, j | 0 <= i < j < |rest|
        ensures rest[i].key != rest[j].key
      {
        assert (inFlight + queue)[i + 1] == rest[i] && (inFlight + queue)[j + 1] == rest[j];
      }
      inFlight := inFlight[1..];
      waiting := waiting - {t.key};
    }
  }
}
