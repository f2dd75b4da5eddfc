/** The token ledger of the backend: a per-label running count of the tokens
  * the analysis prompts and replies use, kept in one process-wide mapping that
  * is cleared at the start of a request and reported at its end. */
module TokenUsage {
  import opened Wrappers
  import opened Text

  /** The Hugging Face tokenizer, loaded once and then asked to encode a text:
    * `Some(n)` is the length of the encoding, `None` that loading or encoding
    * raised. */
  type Tokenizer = string -> Option<nat>

  /** `_estimate_tokens`: the tokenizer's count, or the whitespace word count
    * when the tokenizer cannot be used. */
  function EstimateTokens(text: string, tokenize: Tokenizer): (n: nat)
    ensures tokenize(text).None? ==> (n == 0 <==> AllDrop(text, Whitespace))
  {
    WordCountZero(text);
    match tokenize(text)
    case Some(count) => count
    case None => WordCount(text)
  }

  /** Without a tokenizer, two texts joined by one whitespace character cost
    * what they cost apart. */
  lemma FallbackAdds(a: string, c: char, b: string, tokenize: Tokenizer)
    requires IsSpace(c)
    requires tokenize(a).None? && tokenize(b).None? && tokenize(a + [c] + b).None?
    ensures EstimateTokens(a + [c] + b, tokenize)
            == EstimateTokens(a, tokenize) + EstimateTokens(b, tokenize)
  {
    WordCountSplit(a, c, b);
  }

  /** The count a name has so far; absent labels have counted nothing. */
  function Get(m: map<string, nat>, name: string): nat {
    if name in m then m[name] else 0
  }

  /** The sum of the counts of the labels in `keys`. */
  ghost function SumOver(m: map<string, nat>, keys: set<string>): nat
    requires keys <= m.Keys
    decreases keys
  {
    if keys == {} then 0
    else
      var k :| k in keys;
      m[k] + SumOver(m, keys - {k})
  }

  /** `sum(_TOKEN_USAGE.values())`. */
  ghost function Sum(m: map<string, nat>): nat {
    SumOver(m, m.Keys)
  }

  /** The sum does not depend on which name is taken first. */
  lemma {:induction false} SumOverRemove(m: map<string, nat>, keys: set<string>, k: string)
    requires keys <= m.Keys && k in keys
    ensures SumOver(m, keys) == m[k] + SumOver(m, keys - {k})
    decreases keys
  {
    var j :| j in keys && SumOver(m, keys) == m[j] + SumOver(m, keys - {j});
    if j != k {
      SumOverRemove(m, keys - {j}, k);
      SumOverRemove(m, keys - {k}, j);
      assert keys - {j} - {k} == keys - {k} - {j};
    }
  }

  /** Two ledgers that agree on `keys` have the same sum over them. */
  lemma {:induction false} SumOverAgree(m1: map<string, nat>, m2: map<string, nat>, keys: set<string>)
    requires keys <= m1.Keys && keys <= m2.Keys
    requires forall k :: k in keys ==> m1[k] == m2[k]
    ensures SumOver(m1, keys) == SumOver(m2, keys)
    decreases keys
  {
    if keys != {} {
      var k :| k in keys && SumOver(m1, keys) == m1[k] + SumOver(m1, keys - {k});
      SumOverRemove(m2, keys, k);
      SumOverAgree(m1, m2, keys - {k});
    }
  }

  /** Adding `count` under one name raises the total by exactly `count`. */
  lemma SumUpdate(m: map<string, nat>, name: string, count: nat)
    ensures Sum(m[name := Get(m, name) + count]) == Sum(m) + count
  {
    var m' := m[name := Get(m, name) + count];
    var rest := m.Keys - {name};
    assert m'.Keys == rest + {name};
    SumOverRemove(m', m'.Keys, name);
    assert m'.Keys - {name} == rest;
    SumOverAgree(m, m', rest);
    if name in m {
      SumOverRemove(m, m.Keys, name);
      assert m.Keys - {name} == rest;
    } else {
      assert m.Keys == rest;
    }
  }

  /** One `add_token_usage` call, as its label and the count it recorded. */
  datatype Entry = Entry(name: string, count: nat)

  /** The ledger after a run of calls, starting from `m`. */
  function Replay(m: map<string, nat>, entries: seq<Entry>): map<string, nat>
    decreases |entries|
  {
    if |entries| == 0 then m
    else
      var last := entries[|entries| - 1];
      var before := Replay(m, entries[..|entries| - 1]);
      before[last.name := Get(before, last.name) + last.count]
  }

  /** The counts of `entries` that carry `name`. */
  function NameTotal(entries: seq<Entry>, name: string): nat
    decreases |entries|
  {
    if |entries| == 0 then 0
    else
      NameTotal(entries[..|entries| - 1], name)
      + (if entries[|entries| - 1].name == name then entries[|entries| - 1].count else 0)
  }

  /** The counts of all `entries`. */
  function CountTotal(entries: seq<Entry>): nat
    decreases |entries|
  {
    if |entries| == 0 then 0 else CountTotal(entries[..|entries| - 1]) + entries[|entries| - 1].count
  }

  /** From an empty ledger, each label holds the sum of the counts recorded
    * under it, the labels are exactly those used, and the total is the sum of
    * all counts. */
  lemma ReplayFromEmpty(entries: seq<Entry>)
    ensures forall l :: Get(Replay(map[], entries), l) == NameTotal(entries, l)
    ensures Replay(map[], entries).Keys == set i | 0 <= i < |entries| :: entries[i].name
    ensures Sum(Replay(map[], entries)) == CountTotal(entries)
  {
    forall l ensures Get(Replay(map[], entries), l) == NameTotal(entries, l) {
      ReplayLabel(entries, l);
    }
    ReplayKeys(entries);
    ReplaySum(entries);
  }

  lemma {:induction false} ReplayLabel(entries: seq<Entry>, l: string)
    ensures Get(Replay(map[], entries), l) == NameTotal(entries, l)
    decreases |entries|
  {
    if |entries| > 0 {
      ReplayLabel(entries[..|entries| - 1], l);
    }
  }

  lemma {:induction false} ReplayKeys(entries: seq<Entry>)
    ensures Replay(map[], entries).Keys == set i | 0 <= i < |entries| :: entries[i].name
    decreases |entries|
  {
    if |entries| > 0 {
      var init := entries[..|entries| - 1];
      ReplayKeys(init);
      assert (set i | 0 <= i < |entries| :: entries[i].name)
             == (set i | 0 <= i < |init| :: init[i].name) + {entries[|entries| - 1].name};
    }
  }

  lemma {:induction false} ReplaySum(entries: seq<Entry>)
    ensures Sum(Replay(map[], entries)) == CountTotal(entries)
    decreases |entries|
  {
    if |entries| > 0 {
      var init := entries[..|entries| - 1];
      var last := entries[|entries| - 1];
      ReplaySum(init);
      SumUpdate(Replay(map[], init), last.name, last.count);
    }
  }

  /** What `print_token_usage` prints. */
  datatype UsageReport = UsageReport(event: string, totalTokens: nat, breakdown: map<string, nat>)

  const UsageEvent: string := "llm_token_usage"

  /** `_TOKEN_USAGE`, the process-wide ledger. */
  class TokenLedger {
    var usage: map<string, nat>

    /** The module starts with an empty ledger. */
    constructor()
      ensures usage == map[]
    {
      usage := map[];
    }

    ghost function Total(): nat
      reads this
    {
      Sum(usage)
    }

    /** `reset_token_usage`. */
    method Reset()
      modifies this
      ensures usage == map[] && Total() == 0
    {
      usage := map[];
    }

    /** `add_token_usage`: estimates the text's tokens, adds them under the
      * name and returns the estimate. */
    method Add(name: string, text: string, tokenize: Tokenizer) returns (count: nat)
      modifies this
      ensures count == EstimateTokens(text, tokenize)
      ensures usage == old(usage)[name := Get(old(usage), name) + count]
      ensures Total() == old(Total()) + count
    {
      count := EstimateTokens(text, tokenize);
      SumUpdate(usage, name, count);
      usage := usage[name := Get(usage, name) + count];
    }

    /** `print_token_usage`: the total over all labels and a copy of the
      * ledger. */
    method Report() returns (report: UsageReport)
      ensures report.event == UsageEvent
      ensures report.totalTokens == Sum(usage) && report.breakdown == usage
    {
      var total := 0;
      if |usage| != 0 {
        var keys := usage.Keys;
        while keys != {}
          invariant keys <= usage.Keys
          invariant total + SumOver(usage, keys) == Sum(usage)
          decreases keys
        {
          var k :| k in keys;
          SumOverRemove(usage, keys, k);
          total := total + usage[k];
          keys := keys - {k};
        }
      }
      report := UsageReport(UsageEvent, total, usage);
    }
  }
}
