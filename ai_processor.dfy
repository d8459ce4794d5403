/** The AI processor: entity extraction and question answering, each with a provider path
    that is used only when an API key is configured and a keyword-heuristic fallback that
    is used otherwise and whenever the provider path fails. */
module AiProcessor {
  import opened Notes
  import opened Text
  import opened Lists

  // ================================================================ entity extraction

  const PeopleKeywords: seq<string> := ["sarah", "bob", "mike", "mom", "dad", "john", "mary"]
  const TaskKeywords: seq<string> := ["need", "remember", "call", "buy", "pick up", "schedule"]
  const TimeKeywords: seq<string> :=
    ["tomorrow", "today", "monday", "tuesday", "wednesday", "thursday", "friday", "saturday", "sunday"]

  /** The single value the fallback puts under `tasks`, whatever the text says. */
  const TaskPlaceholder := "extracted task from recording"

  /** The tokens of the fallback extractor: the lower-cased text split on single spaces. */
  function Words(text: string): (words: seq<string>)
    ensures forall k :: 0 <= k < |words| ==> ' ' !in words[k]
    ensures Join(words, " ") == Lower(text)
  {
    JoinSplit(Lower(text), ' ');
    Split(Lower(text), ' ')
  }

  /** The keyword-heuristic extractor. `people` and `dates` are always present (possibly
      empty); `tasks` is present only when an action keyword is a whole token, and then
      holds the placeholder alone. Lemmas MockPeople and MockDates say what the two lists hold. */
  function MockEntityExtraction(text: string): (e: EntitySet)
    ensures "people" in e && "dates" in e
    ensures e.Keys <= {"people", "tasks", "dates"}
    ensures "tasks" in e <==> exists k :: k in TaskKeywords && k in Words(text)
    ensures "tasks" in e ==> e["tasks"] == [TaskPlaceholder]
  {
    var lower := Lower(text);
    var words := Words(text);
    var entities := map["people" := Filter(PeopleKeywords, (person: string) => Includes(lower, person))];
    var entities :=
      if Any(TaskKeywords, (task: string) => task in words) then entities["tasks" := [TaskPlaceholder]]
      else entities;
    entities["dates" := Filter(TimeKeywords, (time: string) => time in words)]
  }

  lemma PeopleKeywordsDistinct()
    ensures NoDuplicates(PeopleKeywords)
  {
  }

  lemma TimeKeywordsDistinct()
    ensures NoDuplicates(TimeKeywords)
  {
  }

  /** `people` is the sub-list of the name list, without duplicates, of the names that occur
      anywhere in the lower-cased text. */
  lemma MockPeople(text: string)
    ensures var people := MockEntityExtraction(text)["people"];
      IsSublist(people, PeopleKeywords) && NoDuplicates(people)
      && forall p :: p in people <==> p in PeopleKeywords && Includes(Lower(text), p)
  {
    var lower := Lower(text);
    var people := Filter(PeopleKeywords, (person: string) => Includes(lower, person));
    assert MockEntityExtraction(text)["people"] == people;
    FilterMembers(PeopleKeywords, (person: string) => Includes(lower, person));
    PeopleKeywordsDistinct();
    SublistNoDuplicates(people, PeopleKeywords);
  }

  /** `dates` is the sub-list of the time keywords, without duplicates, of the keywords that
      equal a whole token. */
  lemma MockDates(text: string)
    ensures var dates := MockEntityExtraction(text)["dates"];
      IsSublist(dates, TimeKeywords) && NoDuplicates(dates)
      && forall t :: t in dates <==> t in TimeKeywords && t in Words(text)
  {
    var words := Words(text);
    var dates := Filter(TimeKeywords, (time: string) => time in words);
    assert MockEntityExtraction(text)["dates"] == dates;
    FilterMembers(TimeKeywords, (time: string) => time in words);
    TimeKeywordsDistinct();
    SublistNoDuplicates(dates, TimeKeywords);
  }

  /** The two-word keyword "pick up" never equals a token, so it never triggers `tasks`. */
  lemma PickUpNeverMatches(text: string)
    ensures "pick up" !in Words(text)
  {
    assert "pick up"[4] == ' ';
  }

  /** Every category the fallback can emit, on an input that mentions nothing: `people`
      and `dates` are present with empty lists and `tasks` is absent. */
  lemma EmptyTextExtraction()
    ensures MockEntityExtraction("") == map["people" := [], "dates" := []]
  {
    var e := MockEntityExtraction("");
    EmptyTextPeople();
    EmptyTextDates();
    assert "tasks" !in e by {
      assert Words("") == [""];
    }
    assert e.Keys == {"people", "dates"};
  }

  lemma EmptyTextPeople()
    ensures MockEntityExtraction("")["people"] == []
  {
    var lower := Lower("");
    forall i | 0 <= i < |PeopleKeywords| ensures !Includes(lower, PeopleKeywords[i]) {
      NotIncludesLonger(lower, PeopleKeywords[i]);
    }
    FilterNone(PeopleKeywords, (person: string) => Includes(lower, person));
  }

  lemma EmptyTextDates()
    ensures MockEntityExtraction("")["dates"] == []
  {
    var words := Words("");
    assert words == [""];
    FilterNone(TimeKeywords, (time: string) => time in words);
  }

  /** A space-free word between two spaces is one of the tokens, lower-cased. */
  lemma WordsHasWord(before: string, w: string, after: string)
    requires ' ' !in w
    ensures Lower(w) in Words(before + " " + w + " " + after)
  {
    var text := before + " " + w + " " + after;
    LowerConcat(before + " " + w, " " + after);
    LowerConcat(before + " ", w);
    LowerConcat(before, " ");
    LowerConcat(" ", after);
    assert Lower(" ") == " ";
    var lw := Lower(w);
    assert ' ' !in lw by {
      forall i | 0 <= i < |lw| ensures lw[i] != ' ' { assert w[i] != ' '; }
    }
    assert Lower(text) == Lower(before) + [' '] + (lw + [' '] + Lower(after));
    SplitConcat(Lower(before), lw + [' '] + Lower(after), ' ');
    SplitConcat(lw, Lower(after), ' ');
    SplitNone(lw, ' ');
  }

  /** A space-free word after the last space is the last token, lower-cased. */
  lemma WordsLastWord(before: string, w: string)
    requires ' ' !in w
    ensures Lower(w) in Words(before + " " + w)
  {
    LowerConcat(before + " ", w);
    LowerConcat(before, " ");
    assert Lower(" ") == " ";
    var lw := Lower(w);
    assert ' ' !in lw by {
      forall i | 0 <= i < |lw| ensures lw[i] != ' ' { assert w[i] != ' '; }
    }
    assert Lower(before + " " + w) == Lower(before) + [' '] + lw;
    SplitConcat(Lower(before), lw, ' ');
    SplitNone(lw, ' ');
  }

  /** Any note of the form "... need ... tomorrow" yields the task placeholder and the
      date `tomorrow`. */
  lemma ReminderExtraction(before: string, middle: string)
    ensures var e := MockEntityExtraction(before + " need " + middle + " tomorrow");
      "tasks" in e && e["tasks"] == [TaskPlaceholder] && "tomorrow" in e["dates"]
  {
    var text := before + " need " + middle + " tomorrow";
    assert text == before + " " + "need" + " " + (middle + " tomorrow");
    WordsHasWord(before, "need", middle + " tomorrow");
    assert text == (before + " need " + middle) + " " + "tomorrow";
    WordsLastWord(before + " need " + middle, "tomorrow");
    ReminderWordsLower();
    assert "need" in TaskKeywords;
    MockDates(text);
  }

  /** The dentist reminder: a task is detected and `tomorrow` is the only date. */
  lemma DentistReminderExtraction()
    ensures var e := MockEntityExtraction("I need to call the dentist tomorrow");
      "tasks" in e && e["tasks"] == [TaskPlaceholder] && e["dates"] == ["tomorrow"]
  {
    var text := "I need to call the dentist tomorrow";
    var words := DentistReminderWords();
    assert "need" in TaskKeywords && "need" in words;
    assert Words(text) == words;
    OtherDaysAbsent(words);
    FilterOnlyHead(TimeKeywords, (time: string) => time in words);
  }

  /** Of the time keywords only the first, `tomorrow`, is a token of the dentist reminder. */
  lemma OtherDaysAbsent(words: seq<string>)
    requires words == ["i", "need", "to", "call", "the", "dentist", "tomorrow"]
    ensures TimeKeywords[0] == "tomorrow" && "tomorrow" in words
    ensures forall i :: 1 <= i < |TimeKeywords| ==> TimeKeywords[i] !in words
  {
    assert "today" !in words && "monday" !in words && "tuesday" !in words;
    assert "wednesday" !in words && "thursday" !in words && "friday" !in words;
    assert "saturday" !in words && "sunday" !in words;
    assert words[6] == "tomorrow";
  }

  /** The tokens of the dentist reminder. */
  lemma DentistReminderWords() returns (words: seq<string>)
    ensures words == ["i", "need", "to", "call", "the", "dentist", "tomorrow"]
    ensures Words("I need to call the dentist tomorrow") == words
  {
    words := ["i", "need", "to", "call", "the", "dentist", "tomorrow"];
    DentistReminderPieces();
    SentenceWords("I", "need", "to", "call", "the", "dentist", "tomorrow");
    ReminderWordsLower();
  }

  lemma DentistReminderPieces()
    ensures "I need to call the dentist tomorrow"
      == "I" + (" " + ("need" + (" " + ("to" + (" " + ("call" + (" " + ("the" + (" " + ("dentist"
         + (" " + "tomorrow")))))))))))
  {
  }

  /** The words of the reminder examples lower-cased: only the capital of "I" changes. */
  lemma ReminderWordsLower()
    ensures Lower("I") == "i" && Lower("need") == "need" && Lower("to") == "to" && Lower("call") == "call"
    ensures Lower("the") == "the" && Lower("dentist") == "dentist" && Lower("tomorrow") == "tomorrow"
  {
  }

  /** Seven space-free words separated by single spaces are seven tokens, lower-cased. */
  lemma SentenceWords(a: string, b: string, c: string, d: string, e: string, f: string, g: string)
    requires ' ' !in a && ' ' !in b && ' ' !in c && ' ' !in d && ' ' !in e && ' ' !in f && ' ' !in g
    ensures Words(a + (" " + (b + (" " + (c + (" " + (d + (" " + (e + (" " + (f + (" " + g))))))))))))
      == [Lower(a), Lower(b), Lower(c), Lower(d), Lower(e), Lower(f), Lower(g)]
  {
    var r6 := f + (" " + g);
    var r5 := e + (" " + r6);
    var r4 := d + (" " + r5);
    var r3 := c + (" " + r4);
    var r2 := b + (" " + r3);
    WordsSingle(g);
    WordsCons(f, g);
    WordsCons(e, r6);
    WordsCons(d, r5);
    WordsCons(c, r4);
    WordsCons(b, r3);
    WordsCons(a, r2);
  }

  /** A space-free first word becomes the first token, lower-cased. */
  lemma WordsCons(x: string, rest: string)
    requires ' ' !in x
    ensures Words(x + (" " + rest)) == [Lower(x)] + Words(rest)
  {
    assert x + (" " + rest) == x + " " + rest;
    LowerConcat(x + " ", rest);
    LowerConcat(x, " ");
    assert Lower(" ") == " ";
    var lx := Lower(x);
    assert ' ' !in lx by {
      forall i | 0 <= i < |lx| ensures lx[i] != ' ' { assert x[i] != ' '; }
    }
    assert Lower(x + " " + rest) == lx + [' '] + Lower(rest);
    SplitConcat(lx, Lower(rest), ' ');
    SplitNone(lx, ' ');
  }

  /** A space-free text is one token, lower-cased. */
  lemma WordsSingle(x: string)
    requires ' ' !in x
    ensures Words(x) == [Lower(x)]
  {
    var lx := Lower(x);
    assert ' ' !in lx by {
      forall i | 0 <= i < |lx| ensures lx[i] != ' ' { assert x[i] != ' '; }
    }
    SplitNone(lx, ' ');
  }

  /** JSON.parse of the provider's reply, as an abstract partial function: None stands for a
      reply that is not valid JSON. */
  type Parser = string -> Option<EntitySet>

  /** `extractEntities`: the provider's parsed reply when a key is configured and both the
      call and the parse succeed; the fallback extraction in every other case. */
  function ExtractEntities(apiKey: Option<string>, text: string, extractor: string -> Outcome, parse: Parser): (e: EntitySet)
    ensures !KeyConfigured(apiKey) ==> e == MockEntityExtraction(text)
    ensures extractor(text).Fail? ==> e == MockEntityExtraction(text)
    ensures extractor(text).Ok? && parse(Trim(extractor(text).content)).None? ==> e == MockEntityExtraction(text)
    ensures KeyConfigured(apiKey) && extractor(text).Ok? && parse(Trim(extractor(text).content)).Some? ==>
      e == parse(Trim(extractor(text).content)).value
  {
    if !KeyConfigured(apiKey) then MockEntityExtraction(text)
    else match extractor(text)
      case Fail => MockEntityExtraction(text)
      case Ok(content) =>
        match parse(Trim(content))
        case None => MockEntityExtraction(text)
        case Some(parsed) => parsed
  }

  // ================================================================ question answering

  /** The topics of the fallback answerer; `Unmatched` is the final `else`. */
  datatype Topic = BobParty | SarahJob | Dentist | Groceries | TaskList | Unmatched

  /** The routed topics, in the order the fallback tries them. */
  const RoutedTopics: seq<Topic> := [BobParty, SarahJob, Dentist, Groceries, TaskList]

  function TopicKeywords(t: Topic): seq<string>
  {
    match t
    case BobParty => ["bob", "party"]
    case SarahJob => ["sarah", "job"]
    case Dentist => ["dentist", "appointment"]
    case Groceries => ["groceries", "shopping"]
    case TaskList => ["tasks", "todo"]
    case Unmatched => []
  }

  /** Some keyword of topic `t` is a substring of the lower-cased question. */
  predicate Mentions(lowerQuestion: string, t: Topic)
  {
    Any(TopicKeywords(t), (k: string) => Includes(lowerQuestion, k))
  }

  /** The mention test for one lower-cased question, as a function value. */
  function MentionedIn(lowerQuestion: string): Topic -> bool
  {
    (t: Topic) => Mentions(lowerQuestion, t)
  }

  /** The first topic of `topics` that passes the mention test `mentioned`. */
  function FirstMentioned(topics: seq<Topic>, mentioned: Topic -> bool): (t: Topic)
    ensures t == Unmatched || (t in topics && mentioned(t))
  {
    if topics == [] then Unmatched
    else if mentioned(topics[0]) then topics[0]
    else FirstMentioned(topics[1..], mentioned)
  }

  /** The topic the fallback answerer picks for a question: a topic the question mentions,
      or `Unmatched`. */
  function Route(question: string): (t: Topic)
    ensures t == Unmatched || (t in RoutedTopics && Mentions(Lower(question), t))
  {
    FirstMentioned(RoutedTopics, MentionedIn(Lower(question)))
  }

  /** Among distinct topics, the k-th is chosen exactly when it passes the test and no
      earlier topic does. */
  lemma {:induction false} FirstMentionedIsFirst(topics: seq<Topic>, mentioned: Topic -> bool, k: nat)
    requires NoDuplicates(topics) && Unmatched !in topics && k < |topics|
    ensures FirstMentioned(topics, mentioned) == topics[k] <==>
      mentioned(topics[k]) && forall j :: 0 <= j < k ==> !mentioned(topics[j])
    decreases |topics|, 1
  {
    if k == 0 {
      NoDuplicatesTail(topics);
    } else {
      FirstMentionedIsFirstLater(topics, mentioned, k);
    }
  }

  lemma {:induction false} FirstMentionedIsFirstLater(topics: seq<Topic>, mentioned: Topic -> bool, k: nat)
    requires NoDuplicates(topics) && Unmatched !in topics && 0 < k < |topics|
    ensures FirstMentioned(topics, mentioned) == topics[k] <==>
      mentioned(topics[k]) && forall j :: 0 <= j < k ==> !mentioned(topics[j])
    decreases |topics|, 0
  {
    var tail := topics[1..];
    NoDuplicatesTail(topics);
    assert tail[k - 1] == topics[k];
    FirstMentionedIsFirst(tail, mentioned, k - 1);
    assert topics[0] != topics[k];
    forall j | 0 < j < k ensures topics[j] == tail[j - 1] {
    }
  }

  /** No topic is chosen exactly when none passes the test. */
  lemma {:induction false} FirstMentionedNone(topics: seq<Topic>, mentioned: Topic -> bool)
    requires Unmatched !in topics
    ensures FirstMentioned(topics, mentioned) == Unmatched <==>
      forall j :: 0 <= j < |topics| ==> !mentioned(topics[j])
  {
    if topics != [] {
      FirstMentionedNone(topics[1..], mentioned);
      if !mentioned(topics[0]) {
        forall j | 0 < j < |topics| ensures topics[j] == topics[1..][j - 1] {
        }
      }
    }
  }

  /** The fallback routes a question to the k-th topic exactly when the question mentions
      that topic and none of the topics tried before it. */
  lemma RouteIsFirstMatch(question: string, k: nat)
    requires k < |RoutedTopics|
    ensures Route(question) == RoutedTopics[k] <==>
      var q := Lower(question);
      Mentions(q, RoutedTopics[k]) && forall j :: 0 <= j < k ==> !Mentions(q, RoutedTopics[j])
  {
    FirstMentionedIsFirst(RoutedTopics, MentionedIn(Lower(question)), k);
  }

  /** The fallback reaches its final `else` exactly when the question mentions no topic. */
  lemma RouteUnmatched(question: string)
    ensures Route(question) == Unmatched <==>
      forall j :: 0 <= j < |RoutedTopics| ==> !Mentions(Lower(question), RoutedTopics[j])
  {
    FirstMentionedNone(RoutedTopics, MentionedIn(Lower(question)));
  }

  const BobWhen := "Saturday at 7 PM"
  const BobWhere := "123 Oak Street"
  const BobErrand := "bottle of wine"
  const BobAnswer :=
    "Based on your recordings, Bob's birthday party is this " + BobWhen + " at " + BobWhere
    + ". You mentioned you need to bring a " + BobErrand + "."
  const SarahAnswer :=
    "You had lunch with Sarah recently. She's looking for a new job in marketing and asked if you know anyone at tech companies."
  const DentistAnswer :=
    "You recorded a reminder to call the dentist tomorrow to schedule a cleaning appointment."
  const GroceriesAnswer :=
    "You need to pick up groceries: milk, eggs, and bread."
  const TasksPrefix := "Here are your tasks: "
  const NoTasksAnswer := "I don't see any specific tasks in your recordings yet."

  /** The `tasks` values of one recording; none when it has no entities or no `tasks`. */
  function TasksOf(r: Recording): seq<string>
  {
    if r.entities.Some? && "tasks" in r.entities.value then r.entities.value["tasks"] else []
  }

  /** The `tasks` values of all recordings, concatenated in recording order. */
  function AllTasks(recordings: seq<Recording>): seq<string>
  {
    if recordings == [] then [] else TasksOf(recordings[0]) + AllTasks(recordings[1..])
  }

  lemma {:induction false} AllTasksConcat(a: seq<Recording>, b: seq<Recording>)
    ensures AllTasks(a + b) == AllTasks(a) + AllTasks(b)
  {
    if a == [] {
      assert a + b == b;
    } else {
      assert (a + b)[0] == a[0] && (a + b)[1..] == a[1..] + b;
      AllTasksConcat(a[1..], b);
    }
  }

  /** A value is among all tasks exactly when some recording lists it under `tasks`. */
  lemma {:induction false} AllTasksMembership(recordings: seq<Recording>, t: string)
    ensures t in AllTasks(recordings) <==> exists i :: 0 <= i < |recordings| && t in TasksOf(recordings[i])
  {
    if recordings != [] {
      AllTasksMembership(recordings[1..], t);
      if t in TasksOf(recordings[0]) {
      } else {
        forall i | 0 < i < |recordings| ensures recordings[i] == recordings[1..][i - 1] {
        }
      }
    }
  }

  const UnmatchedHead := "I searched through your "
  const UnmatchedMiddle := " recordings but couldn't find specific information about \""
  const UnmatchedTail := "\". Try asking about Bob's party, Sarah's job search, your dentist appointment, or general tasks."

  function UnmatchedAnswer(count: nat, question: string): string
  {
    UnmatchedHead + NatToString(count) + UnmatchedMiddle + question + UnmatchedTail
  }

  /** `mockResponse`, as a value: the answer of the topic the question is routed to. */
  function FallbackAnswer(question: string, recordings: seq<Recording>): string
  {
    match Route(question)
    case BobParty => BobAnswer
    case SarahJob => SarahAnswer
    case Dentist => DentistAnswer
    case Groceries => GroceriesAnswer
    case TaskList =>
      var tasks := AllTasks(recordings);
      if |tasks| > 0 then TasksPrefix + Join(tasks, ", ") else NoTasksAnswer
    case Unmatched => UnmatchedAnswer(|recordings|, question)
  }

  /** The `forEach`/`push` loop of the task-list branch. */
  method CollectTasks(recordings: seq<Recording>) returns (tasks: seq<string>)
    ensures tasks == AllTasks(recordings)
  {
    tasks := [];
    for i := 0 to |recordings|
      invariant tasks == AllTasks(recordings[..i])
    {
      var r := recordings[i];
      if r.entities.Some? && "tasks" in r.entities.value {
        tasks := tasks + r.entities.value["tasks"];
      }
      AllTasksConcat(recordings[..i], [r]);
      assert recordings[..i + 1] == recordings[..i] + [r];
      assert AllTasks([r]) == TasksOf(r) by {
        assert [r][1..] == [];
      }
    }
    assert recordings[..|recordings|] == recordings;
  }

  /** `mockResponse`. */
  method MockResponse(question: string, recordings: seq<Recording>) returns (answer: string)
    ensures answer == FallbackAnswer(question, recordings)
  {
    var topic := Route(question);
    match topic
    case BobParty => answer := BobAnswer;
    case SarahJob => answer := SarahAnswer;
    case Dentist => answer := DentistAnswer;
    case Groceries => answer := GroceriesAnswer;
    case TaskList =>
      var tasks := CollectTasks(recordings);
      answer := if |tasks| > 0 then TasksPrefix + Join(tasks, ", ") else NoTasksAnswer;
    case Unmatched => answer := UnmatchedAnswer(|recordings|, question);
  }

  /** A question that mentions Bob is answered about Bob's party, whatever else it mentions. */
  lemma BobComesFirst(question: string, recordings: seq<Recording>)
    requires Includes(Lower(question), "bob")
    ensures Route(question) == BobParty && FallbackAnswer(question, recordings) == BobAnswer
  {
    assert Mentions(Lower(question), BobParty) by {
      assert TopicKeywords(BobParty)[0] == "bob";
    }
    RouteIsFirstMatch(question, 0);
  }

  lemma BobQuestionMentionsBob()
    ensures Includes(Lower("What about Bob's party?"), "bob")
  {
    var a, b, c := "What about ", "Bob", "'s party?";
    assert a + b + c == "What about Bob's party?";
    LowerConcat(a + b, c);
    LowerConcat(a, b);
    assert Lower(b) == "bob";
    IncludesMiddle(Lower(a), "bob", Lower(c));
  }

  lemma BobAnswerDetails()
    ensures Includes(BobAnswer, BobWhen) && Includes(BobAnswer, BobWhere) && Includes(BobAnswer, BobErrand)
  {
    var head := "Based on your recordings, Bob's birthday party is this ";
    var mid := ". You mentioned you need to bring a ";
    IncludesMiddle(head, BobWhen, " at " + BobWhere + mid + BobErrand + ".");
    assert head + BobWhen + (" at " + BobWhere + mid + BobErrand + ".") == BobAnswer;
    IncludesMiddle(head + BobWhen + " at ", BobWhere, mid + BobErrand + ".");
    assert head + BobWhen + " at " + BobWhere + (mid + BobErrand + ".") == BobAnswer;
    IncludesMiddle(head + BobWhen + " at " + BobWhere + mid, BobErrand, ".");
  }

  /** "What about Bob's party?" is answered with the party's day and time, place and errand. */
  lemma BobPartyScenario(recordings: seq<Recording>)
    ensures var a := FallbackAnswer("What about Bob's party?", recordings);
      Includes(a, "Saturday at 7 PM") && Includes(a, "123 Oak Street") && Includes(a, "bottle of wine")
  {
    BobQuestionMentionsBob();
    BobComesFirst("What about Bob's party?", recordings);
    BobAnswerDetails();
  }

  /** Every part of a joined list occurs in the joined string. */
  lemma {:induction false} JoinIncludesPart(parts: seq<string>, sep: string, k: nat)
    requires k < |parts|
    ensures Includes(Join(parts, sep), parts[k])
  {
    if |parts| == 1 {
      IncludesMiddle("", parts[0], "");
      assert "" + parts[0] + "" == parts[0];
    } else if k == 0 {
      IncludesMiddle("", parts[0], sep + Join(parts[1..], sep));
      assert "" + parts[0] + (sep + Join(parts[1..], sep)) == Join(parts, sep);
    } else {
      JoinIncludesPart(parts[1..], sep, k - 1);
      assert Join(parts, sep) == (parts[0] + sep) + Join(parts[1..], sep);
      IncludesAfter(parts[0] + sep, Join(parts[1..], sep), parts[k]);
    }
  }

  /** In the task-list branch, every `tasks` value of every recording appears in the answer,
      which then begins with the task-list prefix; with no values it is the no-tasks message. */
  lemma TaskListAnswerNamesEveryTask(question: string, recordings: seq<Recording>, i: nat, t: string)
    requires Route(question) == TaskList
    requires i < |recordings| && t in TasksOf(recordings[i])
    ensures var a := FallbackAnswer(question, recordings);
      IsPrefix(TasksPrefix, a) && Includes(a, t)
  {
    AllTasksMembership(recordings, t);
    var tasks := AllTasks(recordings);
    var k :| 0 <= k < |tasks| && tasks[k] == t;
    JoinIncludesPart(tasks, ", ", k);
    IncludesAfter(TasksPrefix, Join(tasks, ", "), t);
  }

  /** In the task-list branch with no `tasks` anywhere, the answer is the no-tasks message. */
  lemma TaskListAnswerWhenNoTasks(question: string, recordings: seq<Recording>)
    requires Route(question) == TaskList
    requires forall i :: 0 <= i < |recordings| ==> TasksOf(recordings[i]) == []
    ensures FallbackAnswer(question, recordings) == NoTasksAnswer
  {
    if AllTasks(recordings) != [] {
      AllTasksMembership(recordings, AllTasks(recordings)[0]);
    }
  }

  /** The final `else` echoes the question as it was asked (not lower-cased) and the
      number of recordings searched, in decimal. */
  lemma UnmatchedAnswerEchoes(question: string, recordings: seq<Recording>)
    requires Route(question) == Unmatched
    ensures var a := FallbackAnswer(question, recordings);
      Includes(a, question) && Includes(a, NatToString(|recordings|))
      && DecimalValue(NatToString(|recordings|)) == |recordings|
  {
    assert FallbackAnswer(question, recordings) == UnmatchedAnswer(|recordings|, question);
    UnmatchedAnswerParts(|recordings|, question);
    NatToStringValue(|recordings|);
  }

  lemma UnmatchedAnswerParts(count: nat, question: string)
    ensures Includes(UnmatchedAnswer(count, question), question)
    ensures Includes(UnmatchedAnswer(count, question), NatToString(count))
  {
    UnmatchedAnswerHasQuestion(count, question);
    UnmatchedAnswerHasCount(count, question);
  }

  lemma UnmatchedAnswerHasQuestion(count: nat, question: string)
    ensures Includes(UnmatchedAnswer(count, question), question)
  {
    IncludesMiddle(UnmatchedHead + NatToString(count) + UnmatchedMiddle, question, UnmatchedTail);
  }

  lemma UnmatchedAnswerHasCount(count: nat, question: string)
    ensures Includes(UnmatchedAnswer(count, question), NatToString(count))
  {
    var n := NatToString(count);
    IncludesMiddle(UnmatchedHead, n, UnmatchedMiddle + question + UnmatchedTail);
    assert UnmatchedHead + n + (UnmatchedMiddle + question + UnmatchedTail) == UnmatchedAnswer(count, question);
  }

  // ---------------------------------------------------------------- provider path

  /** One context line: `[date] text`, with the date rendered by the locale formatter. */
  function ContextLine(r: Recording, formatDate: int -> string): string
  {
    "[" + formatDate(r.timestamp) + "] " + r.text
  }

  /** The context block sent to the provider: one line per recording, in stored order. */
  function ContextBlock(recordings: seq<Recording>, formatDate: int -> string): string
  {
    Join(seq(|recordings|, i requires 0 <= i < |recordings| => ContextLine(recordings[i], formatDate)), "\n")
  }

  /** When no text and no rendered date contains a line break, the block's lines are
      exactly the recordings' context lines, in order. */
  lemma ContextBlockLines(recordings: seq<Recording>, formatDate: int -> string)
    requires |recordings| > 0
    requires forall i :: 0 <= i < |recordings| ==>
      '\n' !in recordings[i].text && '\n' !in formatDate(recordings[i].timestamp)
    ensures var lines := Split(ContextBlock(recordings, formatDate), '\n');
      |lines| == |recordings| && forall i :: 0 <= i < |recordings| ==> lines[i] == ContextLine(recordings[i], formatDate)
  {
    var lines := seq(|recordings|, i requires 0 <= i < |recordings| => ContextLine(recordings[i], formatDate));
    forall i | 0 <= i < |lines| ensures '\n' !in lines[i] {
      var r := recordings[i];
      assert lines[i] == "[" + formatDate(r.timestamp) + "] " + r.text;
    }
    SplitJoin(lines, '\n');
  }

  /** `generateResponse`, as a value: the provider's trimmed reply when a key is configured
      and the call succeeds, the fallback answer otherwise. */
  function ResponseFor(apiKey: Option<string>, question: string, recordings: seq<Recording>,
                       formatDate: int -> string, responder: (string, string) -> Outcome): (answer: string)
    ensures !KeyConfigured(apiKey) ==> answer == FallbackAnswer(question, recordings)
    ensures KeyConfigured(apiKey) ==>
      match responder(ContextBlock(recordings, formatDate), question)
      case Fail => answer == FallbackAnswer(question, recordings)
      case Ok(content) => answer == Trim(content)
  {
    if !KeyConfigured(apiKey) then FallbackAnswer(question, recordings)
    else match responder(ContextBlock(recordings, formatDate), question)
      case Fail => FallbackAnswer(question, recordings)
      case Ok(content) => Trim(content)
  }

  /** `generateResponse`. */
  method GenerateResponse(apiKey: Option<string>, question: string, recordings: seq<Recording>,
                          formatDate: int -> string, responder: (string, string) -> Outcome)
    returns (answer: string)
    ensures answer == ResponseFor(apiKey, question, recordings, formatDate, responder)
  {
    if !KeyConfigured(apiKey) {
      answer := MockResponse(question, recordings);
      return;
    }
    var context := ContextBlock(recordings, formatDate);
    match responder(context, question)
    case Fail => answer := MockResponse(question, recordings);
    case Ok(content) => answer := Trim(content);
  }
}
