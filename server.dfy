/** The HTTP back end: an in-memory store of notes seeded with three examples, the listing
    route that sorts the store newest first, the note-submission route that appends one note,
    and the chat route. Request parsing and the HTTP layer are reduced to the values each
    handler inspects. */
module Server {
  import opened Notes
  import opened Lists
  import opened SpeechToText
  import opened AiProcessor

  /** What a handler sends back: its JSON body, or an error status with an error message. */
  datatype Reply<T> = Success(value: T) | Failure(status: nat, error: string)

  const NoInputError := "No audio file or text provided"
  const NoQuestionError := "Question is required"

  // ---------------------------------------------------------------- the seeded store

  const DentistNote :=
    "Reminder: Call the dentist tomorrow to schedule a cleaning appointment. Also need to pick up groceries - milk, eggs, and bread."
  const DentistNoteEntities: EntitySet := map[
    "tasks" := ["call dentist", "pick up groceries"],
    "items" := ["milk", "eggs", "bread"],
    "people" := ["dentist"],
    "dates" := ["tomorrow"]]
  const SarahNote :=
    "Had lunch with Sarah today. She mentioned she's looking for a new job in marketing and asked if I know anyone at tech companies."
  const SarahNoteEntities: EntitySet := map[
    "people" := ["Sarah"],
    "topics" := ["job search", "marketing", "tech companies"],
    "events" := ["lunch"]]
  const BobNote :=
    "Bob's birthday party is this Saturday at 7 PM. Need to bring a bottle of wine. His address is 123 Oak Street."
  const BobNoteEntities: EntitySet := map[
    "people" := ["Bob"],
    "events" := ["birthday party"],
    "dates" := ["Saturday"],
    "times" := ["7 PM"],
    "locations" := ["123 Oak Street"],
    "tasks" := ["bring wine"]]

  /** The three example notes, numbered 1 to 3, one, two and three hours before `now`. */
  function Seed(now: int): (s: seq<Recording>)
    ensures |s| == 3
    ensures forall k :: 0 <= k < |s| ==> s[k].id == k + 1 && s[k].timestamp == now - 3600000 * (k + 1)
  {
    [ Recording(1, now - 3600000, DentistNote, Some(DentistNoteEntities)),
      Recording(2, now - 7200000, SarahNote, Some(SarahNoteEntities)),
      Recording(3, now - 10800000, BobNote, Some(BobNoteEntities)) ]
  }

  // ---------------------------------------------------------------- ids

  /** The ids of the notes. */
  function IdsOf(s: seq<Recording>): set<nat>
  {
    set k | 0 <= k < |s| :: s[k].id
  }

  /** The ids 1 to n. */
  function Range(n: nat): (r: set<nat>)
    ensures forall id :: id in r <==> 1 <= id <= n
  {
    if n == 0 then {} else Range(n - 1) + {n}
  }

  lemma {:induction false} RangeSize(n: nat)
    ensures |Range(n)| == n
  {
    if n == 0 {
      assert Range(n) == {};
    } else {
      RangeSize(n - 1);
      var below := Range(n - 1);
      assert Range(n) == below + {n};
      assert n !in below;
    }
  }

  lemma IdsOfSnoc(s: seq<Recording>, r: Recording)
    ensures IdsOf(s + [r]) == IdsOf(s) + {r.id}
  {
    var t := s + [r];
    forall id | id in IdsOf(t) ensures id in IdsOf(s) + {r.id} {
      var k :| 0 <= k < |t| && t[k].id == id;
      if k < |s| {
        assert t[k] == s[k];
      }
    }
    forall id | id in IdsOf(s) ensures id in IdsOf(t) {
      var k :| 0 <= k < |s| && s[k].id == id;
      assert t[k] == s[k];
    }
    assert t[|s|] == r;
  }

  /** There are never more ids than notes. */
  lemma {:induction false} IdsSize(s: seq<Recording>)
    ensures |IdsOf(s)| <= |s|
    decreases |s|
  {
    if s != [] {
      IdsSize(s[..|s| - 1]);
      IdsOfSnoc(s[..|s| - 1], s[|s| - 1]);
      assert s == s[..|s| - 1] + [s[|s| - 1]];
    }
  }

  /** Two notes with the same id leave fewer ids than notes. */
  lemma IdsSizeWithRepeat(s: seq<Recording>, i: nat, j: nat)
    requires i < j < |s| && s[i].id == s[j].id
    ensures |IdsOf(s)| < |s|
  {
    var t := s[..j] + s[j + 1..];
    assert IdsOf(s) == IdsOf(t) by {
      forall id | id in IdsOf(s) ensures id in IdsOf(t) {
        var k :| 0 <= k < |s| && s[k].id == id;
        if k < j {
          assert t[k] == s[k];
        } else if k == j {
          assert t[i] == s[i];
        } else {
          assert t[k - 1] == s[k];
        }
      }
      forall id | id in IdsOf(t) ensures id in IdsOf(s) {
        var k :| 0 <= k < |t| && t[k].id == id;
        if k < j {
          assert t[k] == s[k];
        } else {
          assert t[k] == s[k + 1];
        }
      }
    }
    IdsSize(t);
  }

  /** The store's invariant: the ids are exactly 1 to n, for n notes. */
  predicate IdsExact(s: seq<Recording>)
  {
    IdsOf(s) == Range(|s|)
  }

  /** When the ids are exactly 1 to n, no two notes share an id. */
  lemma IdsDistinct(s: seq<Recording>)
    requires IdsExact(s)
    ensures forall i, j :: 0 <= i < j < |s| ==> s[i].id != s[j].id
  {
    forall i, j | 0 <= i < j < |s| ensures s[i].id != s[j].id {
      if s[i].id == s[j].id {
        IdsSizeWithRepeat(s, i, j);
        RangeSize(|s|);
      }
    }
  }

  /** The seeded store has ids 1, 2 and 3. */
  lemma SeedIds(now: int)
    ensures IdsOf(Seed(now)) == {1, 2, 3} && IdsExact(Seed(now))
  {
    var s := Seed(now);
    assert s[0].id == 1 && s[1].id == 2 && s[2].id == 3;
    assert IdsOf(s) == {1, 2, 3};
    assert Range(3) == {1, 2, 3};
  }

  /** Appending a note numbered one past the length keeps the ids exact. */
  lemma AppendKeepsIdsExact(s: seq<Recording>, r: Recording)
    requires IdsExact(s) && r.id == |s| + 1
    ensures IdsExact(s + [r]) && r.id !in IdsOf(s)
  {
    IdsOfSnoc(s, r);
  }

  /** Reordering the notes keeps the ids exact. */
  lemma PermutationKeepsIdsExact(s: seq<Recording>, t: seq<Recording>)
    requires IdsExact(s) && multiset(s) == multiset(t)
    ensures IdsExact(t)
  {
    assert |s| == |multiset(s)| == |multiset(t)| == |t|;
    forall id | id in IdsOf(t) ensures id in IdsOf(s) {
      var k :| 0 <= k < |t| && t[k].id == id;
      assert t[k] in multiset(t);
      var h :| 0 <= h < |s| && s[h] == t[k];
    }
    forall id | id in IdsOf(s) ensures id in IdsOf(t) {
      var k :| 0 <= k < |s| && s[k].id == id;
      assert s[k] in multiset(s);
      var h :| 0 <= h < |t| && t[h] == s[k];
    }
  }

  // ---------------------------------------------------------------- the listing order

  /** Newest first. */
  predicate SortedDesc(s: seq<Recording>)
  {
    forall i, j :: 0 <= i < j < |s| ==> s[i].timestamp >= s[j].timestamp
  }

  /** Places `x` after every note of `sorted` that is at least as new, so that among equal
      timestamps the earlier note stays first. */
  function Insert(x: Recording, sorted: seq<Recording>): (r: seq<Recording>)
    ensures multiset(r) == multiset(sorted) + multiset{x}
  {
    if sorted == [] then [x]
    else if sorted[0].timestamp >= x.timestamp then
      assert sorted == [sorted[0]] + sorted[1..];
      [sorted[0]] + Insert(x, sorted[1..])
    else [x] + sorted
  }

  /** Prepending a note at least as new as the head keeps a list newest first. */
  lemma ConsSorted(h: Recording, tail: seq<Recording>)
    requires SortedDesc(tail) && (tail == [] || h.timestamp >= tail[0].timestamp)
    ensures SortedDesc([h] + tail)
  {
    var r := [h] + tail;
    forall i, j | 0 <= i < j < |r| ensures r[i].timestamp >= r[j].timestamp {
      assert r[j] == tail[j - 1];
      if i > 0 {
        assert r[i] == tail[i - 1];
      }
    }
  }

  lemma TailSorted(s: seq<Recording>)
    requires SortedDesc(s) && s != []
    ensures SortedDesc(s[1..])
  {
    forall i, j | 0 <= i < j < |s| - 1 ensures s[1..][i].timestamp >= s[1..][j].timestamp {
      assert s[1..][i] == s[i + 1] && s[1..][j] == s[j + 1];
    }
  }

  /** Inserting into a newest-first list keeps it newest first; the new head is the old
      head or `x`. */
  lemma {:induction false} InsertSorted(x: Recording, sorted: seq<Recording>)
    requires SortedDesc(sorted)
    ensures var r := Insert(x, sorted);
      SortedDesc(r) && (r[0] == x || (sorted != [] && r[0] == sorted[0]))
  {
    if sorted == [] {
    } else if sorted[0].timestamp >= x.timestamp {
      var tail := Insert(x, sorted[1..]);
      TailSorted(sorted);
      InsertSorted(x, sorted[1..]);
      assert tail[0].timestamp <= sorted[0].timestamp by {
        if tail[0] != x {
          assert tail[0] == sorted[1];
        }
      }
      ConsSorted(sorted[0], tail);
    } else {
      ConsSorted(x, sorted);
    }
  }

  /** The stable sort of `recordings.sort((a, b) => b.timestamp - a.timestamp)`. */
  function SortByTimestampDesc(s: seq<Recording>): (r: seq<Recording>)
    ensures multiset(r) == multiset(s)
    ensures SortedDesc(r)
    decreases |s|
  {
    if s == [] then []
    else
      assert s == s[..|s| - 1] + [s[|s| - 1]];
      InsertSorted(s[|s| - 1], SortByTimestampDesc(s[..|s| - 1]));
      Insert(s[|s| - 1], SortByTimestampDesc(s[..|s| - 1]))
  }

  /** The notes bearing timestamp `t`. */
  function StampedAt(t: int): Recording -> bool
  {
    (r: Recording) => r.timestamp == t
  }

  lemma {:induction false} InsertStable(x: Recording, sorted: seq<Recording>, t: int)
    requires SortedDesc(sorted)
    ensures Filter(Insert(x, sorted), StampedAt(t))
      == Filter(sorted, StampedAt(t)) + Filter([x], StampedAt(t))
    decreases |sorted|, 1
  {
    if sorted == [] {
    } else if sorted[0].timestamp >= x.timestamp {
      InsertStableBehind(x, sorted, t);
    } else {
      InsertStableInFront(x, sorted, t);
    }
  }

  lemma {:induction false} InsertStableBehind(x: Recording, sorted: seq<Recording>, t: int)
    requires SortedDesc(sorted) && sorted != [] && sorted[0].timestamp >= x.timestamp
    ensures Filter(Insert(x, sorted), StampedAt(t))
      == Filter(sorted, StampedAt(t)) + Filter([x], StampedAt(t))
    decreases |sorted|, 0
  {
    var f := StampedAt(t);
    var head, tail := [sorted[0]], sorted[1..];
    TailSorted(sorted);
    InsertStable(x, tail, t);
    assert Insert(x, sorted) == head + Insert(x, tail);
    FilterConcat(head, Insert(x, tail), f);
    assert sorted == head + tail;
    FilterConcat(head, tail, f);
    AppendAssoc(Filter(head, f), Filter(tail, f), Filter([x], f));
  }

  lemma InsertStableInFront(x: Recording, sorted: seq<Recording>, t: int)
    requires SortedDesc(sorted) && sorted != [] && sorted[0].timestamp < x.timestamp
    ensures Filter(Insert(x, sorted), StampedAt(t))
      == Filter(sorted, StampedAt(t)) + Filter([x], StampedAt(t))
  {
    var f := StampedAt(t);
    assert Insert(x, sorted) == [x] + sorted;
    FilterConcat([x], sorted, f);
    if x.timestamp == t {
      FilterNone(sorted, f);
    } else {
      assert Filter([x], f) == [];
    }
  }


  /** Sorting is stable: the notes that share a timestamp keep their relative order. */
  lemma {:induction false} SortStable(s: seq<Recording>, t: int)
    ensures Filter(SortByTimestampDesc(s), StampedAt(t)) == Filter(s, StampedAt(t))
    decreases |s|
  {
    if s != [] {
      var init := s[..|s| - 1];
      var x := s[|s| - 1];
      assert s == init + [x];
      assert SortByTimestampDesc(s) == Insert(x, SortByTimestampDesc(init));
      SortStable(init, t);
      SortStableStep(init, x, t);
    }
  }

  lemma SortStableStep(init: seq<Recording>, x: Recording, t: int)
    requires Filter(SortByTimestampDesc(init), StampedAt(t)) == Filter(init, StampedAt(t))
    ensures Filter(Insert(x, SortByTimestampDesc(init)), StampedAt(t)) == Filter(init + [x], StampedAt(t))
  {
    InsertStable(x, SortByTimestampDesc(init), t);
    FilterConcat(init, [x], StampedAt(t));
  }

  /** A note no newer than all others goes last. */
  lemma {:induction false} InsertOldest(x: Recording, sorted: seq<Recording>)
    requires forall k :: 0 <= k < |sorted| ==> sorted[k].timestamp >= x.timestamp
    ensures Insert(x, sorted) == sorted + [x]
  {
    if sorted != [] {
      InsertOldest(x, sorted[1..]);
      assert sorted == [sorted[0]] + sorted[1..];
    }
  }

  /** A store that is already newest first is left as it is, so listing twice lists the
      same order. */
  lemma {:induction false} SortSorted(s: seq<Recording>)
    requires SortedDesc(s)
    ensures SortByTimestampDesc(s) == s
    decreases |s|
  {
    if s != [] {
      var init, last := s[..|s| - 1], s[|s| - 1];
      assert s == init + [last];
      InitSorted(init, last);
      SortSorted(init);
      InsertOldest(last, init);
      assert SortByTimestampDesc(s) == Insert(last, SortByTimestampDesc(init));
    }
  }

  /** Dropping the oldest note of a newest-first list leaves it newest first, and every
      remaining note is at least as new as the dropped one. */
  lemma InitSorted(init: seq<Recording>, last: Recording)
    requires SortedDesc(init + [last])
    ensures SortedDesc(init)
    ensures forall k :: 0 <= k < |init| ==> init[k].timestamp >= last.timestamp
  {
    var s := init + [last];
    forall i, j | 0 <= i < j < |init| ensures init[i].timestamp >= init[j].timestamp {
      assert init[i] == s[i] && init[j] == s[j];
    }
    forall k | 0 <= k < |init| ensures init[k].timestamp >= last.timestamp {
      assert init[k] == s[k] && last == s[|init|];
    }
  }


  /** The seeded notes are listed in seeded order. */
  lemma SeedListedInOrder(now: int)
    ensures SortByTimestampDesc(Seed(now)) == Seed(now)
  {
    SortSorted(Seed(now));
  }

  // ---------------------------------------------------------------- the store

  class RecordingStore {
    var recordings: seq<Recording>

    ghost predicate Valid()
      reads this
    {
      IdsExact(recordings)
    }

    /** The store at start-up, seeded at time `now`. */
    constructor(now: int)
      ensures Valid() && recordings == Seed(now)
    {
      recordings := Seed(now);
      SeedIds(now);
    }

    /** `GET /api/recordings`: sorts the store itself newest first and returns it. */
    method List() returns (listed: seq<Recording>)
      requires Valid()
      modifies this
      ensures Valid()
      ensures recordings == SortByTimestampDesc(old(recordings)) && listed == recordings
    {
      PermutationKeepsIdsExact(recordings, SortByTimestampDesc(recordings));
      recordings := SortByTimestampDesc(recordings);
      listed := recordings;
    }

    /** `POST /api/recordings`. `hasFile` says whether an audio file was uploaded and
        `bodyText` is the `text` form field; `transcriber` and `u` feed the transcription
        service, `extractor` and `parse` the entity extraction, and `now` is the clock. */
    method Submit(hasFile: bool, bodyText: Option<string>, apiKey: Option<string>,
                  transcriber: Outcome, u: real, extractor: string -> Outcome, parse: Parser, now: int)
      returns (reply: Reply<Recording>)
      requires Valid() && 0.0 <= u < 1.0
      modifies this
      ensures Valid()
      ensures !hasFile && (bodyText.None? || bodyText.value == "") ==>
        reply == Failure(400, NoInputError) && recordings == old(recordings)
      ensures hasFile || (bodyText.Some? && bodyText.value != "") ==>
        var text := if hasFile then TranscribeAudio(apiKey, transcriber, u) else bodyText.value;
        var r := Recording(|old(recordings)| + 1, now, text, Some(ExtractEntities(apiKey, text, extractor, parse)));
        reply == Success(r) && recordings == old(recordings) + [r] && r.id !in IdsOf(old(recordings))
    {
      var text;
      if hasFile {
        text := TranscribeAudio(apiKey, transcriber, u);
      } else if bodyText.Some? && bodyText.value != "" {
        text := bodyText.value;
      } else {
        return Failure(400, NoInputError);
      }
      var entities := ExtractEntities(apiKey, text, extractor, parse);
      var r := Recording(|recordings| + 1, now, text, Some(entities));
      AppendKeepsIdsExact(recordings, r);
      recordings := recordings + [r];
      reply := Success(r);
    }

    /** `POST /api/chat`: answers over the store in its current order. */
    method Chat(question: Option<string>, apiKey: Option<string>, formatDate: int -> string,
                responder: (string, string) -> Outcome)
      returns (reply: Reply<string>)
      ensures question.None? || question.value == "" ==> reply == Failure(400, NoQuestionError)
      ensures question.Some? && question.value != "" ==>
        reply == Success(ResponseFor(apiKey, question.value, recordings, formatDate, responder))
    {
      if question.None? || question.value == "" {
        return Failure(400, NoQuestionError);
      }
      var answer := GenerateResponse(apiKey, question.value, recordings, formatDate, responder);
      reply := Success(answer);
    }
  }
}
