/**
 The storage example: a map whose keys are string views into the memory of its own values, updated by PUT
 and DELETE samples and read by queries, each under one lock.
 */
module Storage {

  datatype Kind = Put | Delete

  /** A sample owns the memory block `mem`, in which its key expression lives. Moving a sample moves the
      block along, so `mem` does not change. */
  datatype Sample = Sample(mem: nat, key: string, payload: seq<int>, kind: Kind)

  /** An entry of the `unordered_map`: the stored key view points into block `view`. Keys compare by text,
      so the map is indexed by the text. */
  datatype Entry = Entry(view: nat, sample: Sample)

  datatype Reply = Reply(key: string, payload: seq<int>)

  datatype Event = Received(s: Sample) | Asked(query: string)

  // ---------------------------------------------------------------- what the storage must do

  /** For every key, the last sample of the log, if it is a PUT; as a list of length at most one. */
  function LastWriter(log: seq<Sample>, key: string): (r: seq<Sample>)
    ensures |r| <= 1
  {
    if log == [] then []
    else if log[|log| - 1].key == key then
      if log[|log| - 1].kind == Put then [log[|log| - 1]] else []
    else LastWriter(log[..|log| - 1], key)
  }

  lemma LastWriterSnoc(log: seq<Sample>, s: Sample, key: string)
    ensures LastWriter(log + [s], key) ==
            if s.key != key then LastWriter(log, key) else if s.kind == Put then [s] else []
  {
    assert (log + [s])[..|log|] == log;
  }

  /** `log[i]` is a PUT for `key`, and nothing about `key` comes after it. */
  predicate LastPut(log: seq<Sample>, key: string, i: nat) {
    i < |log| && log[i].key == key && log[i].kind == Put && forall j | i < j < |log| :: log[j].key != key
  }

  /** A key is stored with a sample exactly if that is its last one, and a PUT. */
  lemma {:induction false} LastWriterExactly(log: seq<Sample>, key: string)
    ensures LastWriter(log, key) == [] <==> forall i: nat :: !LastPut(log, key, i)
    ensures forall i: nat | LastPut(log, key, i) :: LastWriter(log, key) == [log[i]]
    decreases |log|
  {
    if log != [] {
      var n := |log| - 1;
      if log[n].key != key {
        LastWriterExactly(log[..n], key);
        assert forall i: nat :: LastPut(log, key, i) <==> LastPut(log[..n], key, i);
      } else if log[n].kind == Put {
        assert LastPut(log, key, n);
      }
    }
  }

  /** A stored entry that intersects `query` is answered by `r`. */
  ghost predicate Due(log: seq<Sample>, query: string, intersects: (string, string) -> bool, r: Reply) {
    intersects(query, r.key) && LastWriter(log, r.key) != [] && r.payload == LastWriter(log, r.key)[0].payload
  }

  ghost predicate DistinctKeys(replies: seq<Reply>) {
    forall i, j | 0 <= i < j < |replies| :: replies[i].key != replies[j].key
  }

  /** `replies` answers `query` after `log`: exactly one reply for every stored entry that intersects. */
  ghost predicate Answers(log: seq<Sample>, query: string, intersects: (string, string) -> bool, replies: seq<Reply>) {
    (forall r :: r in replies <==> Due(log, query, intersects, r)) && DistinctKeys(replies)
  }

  /** Part of such an answer. */
  ghost predicate AnswersPart(log: seq<Sample>, query: string, intersects: (string, string) -> bool, replies: seq<Reply>) {
    (forall r | r in replies :: Due(log, query, intersects, r)) && DistinctKeys(replies)
  }

  /** Every query of an interleaving is answered for the log at its moment. */
  ghost predicate Answered(log: seq<Sample>, events: seq<Event>, intersects: (string, string) -> bool,
                           answers: seq<seq<Reply>>)
    decreases |events|
  {
    if events == [] then answers == []
    else
      match events[0]
      case Received(s) => Answered(log + [s], events[1..], intersects, answers)
      case Asked(q) =>
        && answers != [] && Answers(log, q, intersects, answers[0])
        && Answered(log, events[1..], intersects, answers[1..])
  }

  function Logged(log: seq<Sample>, events: seq<Event>): seq<Sample>
    decreases |events|
  {
    if events == [] then log
    else Logged(if events[0].Received? then log + [events[0].s] else log, events[1..])
  }

  /** One more event, with its answer if it is a query. */
  lemma {:induction false} AnsweredSnoc(log: seq<Sample>, events: seq<Event>, intersects: (string, string) -> bool,
                                        answers: seq<seq<Reply>>, e: Event, answer: seq<Reply>)
    requires Answered(log, events, intersects, answers)
    requires e.Asked? ==> Answers(Logged(log, events), e.query, intersects, answer)
    ensures Answered(log, events + [e], intersects, if e.Asked? then answers + [answer] else answers)
    ensures Logged(log, events + [e]) == if e.Asked? then Logged(log, events) else Logged(log, events) + [e.s]
    decreases |events|
  {
    if events == [] {
      assert events + [e] == [e] && [e][1..] == [] && answers + [answer] == [answer] && [answer][1..] == [];
    } else {
      assert (events + [e])[1..] == events[1..] + [e];
      match events[0]
      case Received(s) => AnsweredSnoc(log + [s], events[1..], intersects, answers, e, answer);
      case Asked(_) =>
        assert (answers + [answer])[1..] == answers[1..] + [answer];
        AnsweredSnoc(log, events[1..], intersects, answers[1..], e, answer);
    }
  }

  // ---------------------------------------------------------------- memory

  /** The block of an arriving sample is in use, so no stored value owns it. (It may well have belonged to
      an entry that is gone by now.) */
  ghost predicate Arrives(entries: map<string, Entry>, s: Sample) {
    forall k | k in entries :: entries[k].sample.mem != s.mem
  }

  function Updated(entries: map<string, Entry>, s: Sample): map<string, Entry> {
    match s.kind
    case Put => (entries - {s.key})[s.key := Entry(s.mem, s)]
    case Delete => entries - {s.key}
  }

  ghost predicate AllArrive(entries: map<string, Entry>, events: seq<Event>)
    decreases |events|
  {
    events != [] ==>
      match events[0]
      case Received(s) => Arrives(entries, s) && AllArrive(Updated(entries, s), events[1..])
      case Asked(_) => AllArrive(entries, events[1..])
  }

  class Store {
    var entries: map<string, Entry>
    /** Blocks currently given back to the allocator. */
    var freed: set<nat>
    /** Every sample handled so far. */
    ghost var log: seq<Sample>

    constructor ()
      ensures Valid() && log == [] && entries == map[]
    {
      entries, freed, log := map[], {}, [];
    }

    /** The map is the last-writer fold of the log. */
    ghost predicate MatchesLog()
      reads this
    {
      forall k {:trigger LastWriter(log, k)} ::
        LastWriter(log, k) == if k in entries then [entries[k].sample] else []
    }

    /** Every key view points into memory owned by the value of the same entry, reads as the key, and is not
        freed; no two values own the same memory. */
    ghost predicate ViewsValid()
      reads this
    {
      && (forall k | k in entries ::
            && entries[k].view == entries[k].sample.mem && entries[k].view !in freed
            && entries[k].sample.key == k)
      && forall k, l | k in entries && l in entries && k != l :: entries[k].sample.mem != entries[l].sample.mem
    }

    ghost predicate Valid()
      reads this
    {
      MatchesLog() && ViewsValid()
    }

    /** `storage.erase(key)`: destroys the entry's value, and with it the memory its key points to. */
    method Erase(key: string)
      modifies this`entries, this`freed
      ensures entries == old(entries) - {key}
      ensures freed == old(freed) + if key in old(entries) then {old(entries)[key].sample.mem} else {}
    {
      if key in entries {
        freed := freed + {entries[key].sample.mem};
        entries := entries - {key};
      } else {
        assert entries - {key} == entries;
      }
    }

    /** `storage.insert({view, std::move(sample)})`: an existing entry stays as it is, key view included, and
        the argument is destroyed. */
    method Insert(view: nat, s: Sample)
      modifies this`entries, this`freed
      ensures s.key !in old(entries) ==> entries == old(entries)[s.key := Entry(view, s)] && freed == old(freed)
      ensures s.key in old(entries) ==> entries == old(entries) && freed == old(freed) + {s.mem}
    {
      if s.key in entries {
        freed := freed + {s.mem};
      } else {
        entries := entries[s.key := Entry(view, s)];
      }
    }

    /** `sub_handler`. A DELETE sample stays with the caller. */
    method OnSample(s: Sample)
      requires Valid() && Arrives(entries, s)
      modifies this
      ensures Valid() && log == old(log) + [s] && entries == Updated(old(entries), s)
    {
      freed := freed - {s.mem};
      match s.kind {
        case Put =>
          Erase(s.key);
          Insert(s.mem, s);
        case Delete =>
          Erase(s.key);
      }
      log := log + [s];
      forall k ensures LastWriter(log, k) == if k in entries then [entries[k].sample] else [] {
        LastWriterSnoc(old(log), s, k);
      }
    }

    /** `qbl_handler`: a loop over the map, in whatever order it iterates. `fails(k)` says that the `k`-th
        `reply` call fails; it then throws out of the handler. `failed` is the reply of that call, if any:
        all calls before it went out and were due, and so was this one. */
    method OnQuery(query: string, intersects: (string, string) -> bool, fails: nat -> bool)
        returns (replies: seq<Reply>, failed: seq<Reply>)
      requires Valid()
      ensures failed == [] ==> Answers(log, query, intersects, replies)
      ensures failed != [] ==> |failed| == 1 && fails(|replies|) && AnswersPart(log, query, intersects, replies + failed)
      ensures forall k | 0 <= k < |replies| :: !fails(k)
    {
      replies, failed := [], [];
      var todo := entries.Keys;
      while todo != {}
        invariant todo <= entries.Keys && failed == []
        invariant forall r :: r in replies <==> r.key !in todo && Stored(query, intersects, r)
        invariant DistinctKeys(replies)
        invariant forall k | 0 <= k < |replies| :: !fails(k)
        decreases |todo|
      {
        var k :| k in todo;
        var v := entries[k].sample;
        if intersects(query, v.key) {
          assert forall i | 0 <= i < |replies| :: replies[i] in replies && replies[i].key != k;
          if fails(|replies|) {
            failed := [Reply(v.key, v.payload)];
            forall r | r in replies + failed ensures Due(log, query, intersects, r) { DueIfStored(query, intersects, r); }
            return;
          }
          replies := replies + [Reply(v.key, v.payload)];
        }
        todo := todo - {k};
      }
      forall r ensures r in replies <==> Due(log, query, intersects, r) { DueIfStored(query, intersects, r); }
    }

    /** `r` is the reply for an entry of the map that intersects. */
    predicate Stored(query: string, intersects: (string, string) -> bool, r: Reply)
      reads this
    {
      r.key in entries && intersects(query, r.key) && r.payload == entries[r.key].sample.payload
    }

    lemma DueIfStored(query: string, intersects: (string, string) -> bool, r: Reply)
      requires MatchesLog()
      ensures Due(log, query, intersects, r) <==> Stored(query, intersects, r)
    {
      assert LastWriter(log, r.key) == if r.key in entries then [entries[r.key].sample] else [];
    }

    /** Any interleaving of samples and queries, each under the lock, up to the first query whose handler throws
        (what the C library does with that exception is not part of this model). `fails(i, k)` says that the
        `k`-th `reply` call of event `i` fails. */
    method Serve(events: seq<Event>, intersects: (string, string) -> bool, fails: (nat, nat) -> bool)
        returns (answers: seq<seq<Reply>>, served: nat, last: seq<Reply>)
      requires Valid() && AllArrive(entries, events)
      modifies this
      ensures Valid() && served <= |events|
      ensures Answered(old(log), events[..served], intersects, answers) && log == Logged(old(log), events[..served])
      ensures served < |events| ==> events[served].Asked? && fails(served, |last|)
                                    && AnswersPart(log, events[served].query, intersects, last)
      ensures (forall i: nat, k: nat :: !fails(i, k)) ==> served == |events|
    {
      answers, served, last := [], 0, [];
      while served < |events|
        invariant 0 <= served <= |events| && Valid() && AllArrive(entries, events[served..])
        invariant Answered(old(log), events[..served], intersects, answers) && log == Logged(old(log), events[..served])
      {
        assert events[served..][1..] == events[served + 1..] && events[..served + 1] == events[..served] + [events[served]];
        var answer := [];
        match events[served] {
          case Received(s) =>
            OnSample(s);
          case Asked(q) =>
            var failed;
            var i := served;
            answer, failed := OnQuery(q, intersects, (k: nat) => fails(i, k));
            if failed != [] {
              assert forall r | r in answer :: r in answer + failed;
              assert forall i | 0 <= i < |answer| :: (answer + failed)[i] == answer[i];
              return answers, served, answer;
            }
        }
        AnsweredSnoc(old(log), events[..served], intersects, answers, events[served], answer);
        if events[served].Asked? { answers := answers + [answer]; }
        served := served + 1;
      }
    }
  }
}
