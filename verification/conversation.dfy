/**
 * The conversation buffer of script.js: the model-to-budget table, the
 * trimming loop of `getBotResponse` and the user turn appended after it.
 *
 * The loop walks the messages from the system message on, adding up token
 * counts; at the first message that would take the running total over the
 * budget it cuts the array there (`messages.splice(i)`). Everything from that
 * message to the end goes, so it is the newest turns that are dropped.
 */
module Conversation {
  import opened Text
  import opened Tokens

  datatype Role = System | User | Assistant

  datatype Message = Message(role: Role, content: string)

  /** The budget of a model the table does not list. */
  const DefaultBudget: nat := 4096

  /** `MAX_TOKENS_BY_MODEL` (script.js:12-23). */
  const ModelBudgets: map<string, nat> := map[
    "gpt-3.5-turbo" := 4096,
    "gpt-3.5-turbo-0613" := 4096,
    "gpt-3.5-turbo-16k" := 16384,
    "gpt-3.5-turbo-16k-0613" := 16384,
    "gpt-4-0613" := 8192,
    "gpt-4" := 8192,
    "gpt-4-32k" := 32768,
    "gpt-4-32k-0613" := 32768,
    "claude-2-100k" := 102400,
    "llama-2-70b-chat" := 4096
  ]

  /**
   * `MAX_TOKENS_BY_MODEL[model] || 4096`: a listed budget of 0 would be
   * falsy and fall back too, but no listed budget is 0.
   */
  function MaxTokens(model: string): (budget: nat)
    ensures model in ModelBudgets ==> budget == ModelBudgets[model]
    ensures model !in ModelBudgets ==> budget == DefaultBudget
    ensures budget >= DefaultBudget
  {
    if model in ModelBudgets && ModelBudgets[model] != 0 then ModelBudgets[model] else DefaultBudget
  }

  /** The budgets of the GPT-3.5 ids. */
  lemma BudgetsGpt35()
    ensures MaxTokens("gpt-3.5-turbo") == 4096 && MaxTokens("gpt-3.5-turbo-0613") == 4096
    ensures MaxTokens("gpt-3.5-turbo-16k") == 16384 && MaxTokens("gpt-3.5-turbo-16k-0613") == 16384
  {
  }

  /** The budgets of the GPT-4 ids. */
  lemma BudgetsGpt4()
    ensures MaxTokens("gpt-4-0613") == 8192 && MaxTokens("gpt-4") == 8192
    ensures MaxTokens("gpt-4-32k") == 32768 && MaxTokens("gpt-4-32k-0613") == 32768
  {
  }

  /** The budgets of the other two ids, and the fallback for any id the table does not list. */
  lemma BudgetsOther(model: string)
    ensures MaxTokens("claude-2-100k") == 102400 && MaxTokens("llama-2-70b-chat") == 4096
    ensures model !in ModelBudgets ==> MaxTokens(model) == 4096
  {
  }

  /** `getTokenCount` of the content of each message, in order. */
  function Counts(messages: seq<Message>): (r: seq<nat>)
    ensures |r| == |messages|
  {
    seq(|messages|, k requires 0 <= k < |messages| => TokenCount(messages[k].content))
  }

  /** Sum of the first `n` counts. */
  function Sum(counts: seq<nat>, n: nat): nat
    requires n <= |counts|
  {
    if n == 0 then 0 else Sum(counts, n - 1) + counts[n - 1]
  }

  /** Summed token counts of the first `n` messages. */
  function Total(messages: seq<Message>, n: nat): nat
    requires n <= |messages|
  {
    Sum(Counts(messages), n)
  }

  /** A longer prefix never sums to less. */
  lemma {:induction false} SumMonotone(counts: seq<nat>, i: nat, j: nat)
    requires i <= j <= |counts|
    ensures Sum(counts, i) <= Sum(counts, j)
    decreases j - i
  {
    if i < j {
      SumMonotone(counts, i, j - 1);
    }
  }

  /** The sum of a prefix depends on that prefix only. */
  lemma {:induction false} SumOfPrefix(counts: seq<nat>, shorter: seq<nat>, n: nat)
    requires n <= |shorter| <= |counts| && shorter == counts[..|shorter|]
    ensures Sum(shorter, n) == Sum(counts, n)
    decreases n
  {
    if n > 0 {
      SumOfPrefix(counts, shorter, n - 1);
      assert shorter[n - 1] == counts[n - 1];
    }
  }

  /** The counts of a prefix of the messages are a prefix of their counts. */
  lemma CountsOfPrefix(messages: seq<Message>, kept: seq<Message>)
    requires |kept| <= |messages| && kept == messages[..|kept|]
    ensures Counts(kept) == Counts(messages)[..|kept|]
  {
    forall k | 0 <= k < |kept|
      ensures Counts(kept)[k] == Counts(messages)[k]
    {
      assert kept[k] == messages[k];
    }
  }

  /** A longer prefix never counts fewer tokens. */
  lemma TotalMonotone(messages: seq<Message>, i: nat, j: nat)
    requires i <= j <= |messages|
    ensures Total(messages, i) <= Total(messages, j)
  {
    SumMonotone(Counts(messages), i, j);
  }

  /** The total of a prefix depends on that prefix only. */
  lemma TotalOfPrefix(messages: seq<Message>, kept: seq<Message>, n: nat)
    requires n <= |kept| <= |messages| && kept == messages[..|kept|]
    ensures Total(kept, n) == Total(messages, n)
  {
    CountsOfPrefix(messages, kept);
    SumOfPrefix(Counts(messages), Counts(kept), n);
  }

  /**
   * Cutting `counts` before index `cut` is what the loop of
   * script.js:110-118 does: the first count always stays, every running
   * total up to the cut is within `budget`, and the next one would exceed it.
   */
  ghost predicate IsCut(counts: seq<nat>, cut: nat, budget: nat) {
    && 1 <= cut <= |counts|
    && (forall j :: 2 <= j <= cut ==> Sum(counts, j) <= budget)
    && (cut < |counts| ==> Sum(counts, cut + 1) > budget)
  }

  /**
   * `kept` is what the loop leaves of `messages`: the prefix of `messages`
   * that ends at the cut of their token counts.
   */
  ghost predicate IsTrimOf(kept: seq<Message>, messages: seq<Message>, budget: nat) {
    && |kept| <= |messages|
    && kept == messages[..|kept|]
    && IsCut(Counts(messages), |kept|, budget)
  }

  /** A list of counts has one cut only. */
  lemma CutIsUnique(counts: seq<nat>, cut1: nat, cut2: nat, budget: nat)
    requires IsCut(counts, cut1, budget) && IsCut(counts, cut2, budget)
    ensures cut1 == cut2
  {
  }

  /**
   * What a cut implies: the kept counts fit when the first does, a first
   * count over budget is kept alone, and counts that fit are kept whole.
   */
  lemma CutProperties(counts: seq<nat>, cut: nat, budget: nat)
    requires IsCut(counts, cut, budget)
    ensures counts[0] <= budget ==> Sum(counts, cut) <= budget
    ensures counts[0] > budget ==> cut == 1
    ensures Sum(counts, |counts|) <= budget ==> cut == |counts|
  {
    assert Sum(counts, 1) == counts[0];
    if |counts| >= 2 {
      SumMonotone(counts, 1, 2);
    }
    if Sum(counts, |counts|) <= budget && cut < |counts| {
      SumMonotone(counts, cut + 1, |counts|);
    }
  }

  /**
   * What a trim guarantees: the system message stays, the
   * kept messages fit when the system message does, a system message over
   * budget is kept alone, and a conversation that fits is kept whole.
   */
  lemma TrimProperties(kept: seq<Message>, messages: seq<Message>, budget: nat)
    requires IsTrimOf(kept, messages, budget)
    ensures kept[0] == messages[0]
    ensures TokenCount(messages[0].content) <= budget ==> Total(kept, |kept|) <= budget
    ensures TokenCount(messages[0].content) > budget ==> kept == messages[..1]
    ensures Total(messages, |messages|) <= budget ==> kept == messages
  {
    CutProperties(Counts(messages), |kept|, budget);
    TotalOfPrefix(messages, kept, |kept|);
    assert messages[..|messages|] == messages;
  }

  /**
   * The trimming loop of `getBotResponse` (script.js:110-118). The model
   * counts every message before it looks for the cut, where the loop counts
   * one message per step and stops at the cut; counting has no effect, so
   * the cut is the same.
   */
  method TrimToBudget(messages: seq<Message>, budget: nat) returns (kept: seq<Message>)
    requires |messages| >= 1
    ensures IsTrimOf(kept, messages, budget)
    ensures |kept| >= 1 && kept == messages[..|kept|] && kept[0] == messages[0]
    ensures TokenCount(messages[0].content) <= budget ==> Total(kept, |kept|) <= budget
    ensures TokenCount(messages[0].content) > budget ==> kept == messages[..1]
    ensures Total(messages, |messages|) <= budget ==> kept == messages
    ensures |kept| < |messages| ==> Total(messages, |kept| + 1) > budget
  {
    var counts := CountTokens(messages);
    var cut := CutPoint(counts, budget);
    kept := messages[..cut];
    TrimProperties(kept, messages, budget);
  }

  /** `getTokenCount` of every message, in order. */
  method CountTokens(messages: seq<Message>) returns (counts: seq<nat>)
    ensures counts == Counts(messages)
  {
    counts := [];
    var i := 0;
    while i < |messages|
      invariant i <= |messages| && counts == Counts(messages)[..i]
    {
      var n := TokenCount(messages[i].content);
      assert Counts(messages)[..i + 1] == Counts(messages)[..i] + [n];
      counts := counts + [n];
      i := i + 1;
    }
    assert Counts(messages)[..|messages|] == Counts(messages);
  }

  /**
   * Where the loop calls `messages.splice(i)`: the first index whose count
   * takes the running total over `budget`, or the length when none does.
   */
  method CutPoint(counts: seq<nat>, budget: nat) returns (cut: nat)
    requires |counts| >= 1
    ensures IsCut(counts, cut, budget)
  {
    var tokenCount := counts[0];
    assert tokenCount == Sum(counts, 1);
    var i := 1;
    cut := |counts|;
    while i < |counts|
      invariant 1 <= i <= |counts|
      invariant tokenCount == Sum(counts, i)
      invariant forall j :: 2 <= j <= i ==> Sum(counts, j) <= budget
    {
      if tokenCount + counts[i] > budget {
        cut := i;
        break;
      }
      tokenCount := tokenCount + counts[i];
      i := i + 1;
    }
  }

  /** Two trims of the same messages are the same prefix. */
  lemma TrimIsUnique(kept1: seq<Message>, kept2: seq<Message>, messages: seq<Message>, budget: nat)
    requires IsTrimOf(kept1, messages, budget) && IsTrimOf(kept2, messages, budget)
    ensures kept1 == kept2
  {
    CutIsUnique(Counts(messages), |kept1|, |kept2|, budget);
  }

  /** A trimmed conversation is already within the loop's reach: trimming it again keeps it whole. */
  lemma TrimTwice(kept: seq<Message>, again: seq<Message>, messages: seq<Message>, budget: nat)
    requires IsTrimOf(kept, messages, budget)
    requires IsTrimOf(again, kept, budget)
    ensures again == kept
  {
    var counts := Counts(messages);
    var short := Counts(kept);
    CountsOfPrefix(messages, kept);
    assert IsCut(short, |kept|, budget) by {
      forall j | 2 <= j <= |kept|
        ensures Sum(short, j) <= budget
      {
        SumOfPrefix(counts, short, j);
      }
    }
    CutIsUnique(short, |again|, |kept|, budget);
    assert kept[..|kept|] == kept;
  }

  /**
   * Trimming followed by `messages.push({role: 'user', content: message})`
   * (script.js:108-123), for the budget of `model`. The new turn is the last
   * message and is not counted against the budget on this call.
   */
  method PrepareRequest(messages: seq<Message>, model: string, message: string) returns (request: seq<Message>)
    requires |messages| >= 1
    ensures |request| >= 2 && request[0] == messages[0]
    ensures request[|request| - 1] == Message(User, message)
    ensures IsTrimOf(request[..|request| - 1], messages, MaxTokens(model))
    ensures TokenCount(messages[0].content) <= MaxTokens(model) ==>
              Total(request, |request| - 1) <= MaxTokens(model)
  {
    var maxTokens := MaxTokens(model);
    var kept := TrimToBudget(messages, maxTokens);
    request := kept + [Message(User, message)];
    assert request[..|request| - 1] == kept;
    TotalOfPrefix(request, kept, |kept|);
  }

  /**
   * The loop cuts at the first turn that does not fit and drops everything
   * after it: with a 5-word system message, two 4-word turns and a budget of
   * 10, the newer turn goes and the older one stays.
   */
  lemma NewestTurnDropped(messages: seq<Message>, kept: seq<Message>)
    requires |messages| == 3
    requires WordCount(messages[0].content) == 5
    requires WordCount(messages[1].content) == 4 && WordCount(messages[2].content) == 4
    requires IsTrimOf(kept, messages, 10)
    ensures kept == messages[..2]
  {
    TokenCountIsWordCount(messages[0].content);
    TokenCountIsWordCount(messages[1].content);
    TokenCountIsWordCount(messages[2].content);
    var counts := Counts(messages);
    assert counts[0] == 5 && counts[1] == 4 && counts[2] == 4;
    CutOfFiveFourFour(counts, |kept|);
  }

  lemma CutOfFiveFourFour(counts: seq<nat>, cut: nat)
    requires |counts| == 3 && counts[0] == 5 && counts[1] == 4 && counts[2] == 4
    requires IsCut(counts, cut, 10)
    ensures cut == 2
  {
    assert Sum(counts, 1) == 5;
    assert Sum(counts, 2) == 9;
    assert Sum(counts, 3) == 13;
  }
}
