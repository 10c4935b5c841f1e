/** Loading the guardrail keyword rules into the two automata (src/policy/guardrails.c:299-357). Webhook rules
    are passed over here. */
module RuleSets {
  import opened AhoCorasick
  import opened LongestSuffix

  datatype Rule = Rule(enabled: bool, ruleType: string, action: string, pattern: Word)

  /** A rule with the action "block" is a keyword rule whatever its type, "exempt" included. */
  predicate Blocks(r: Rule) {
    r.enabled && r.ruleType != "webhook" && (r.ruleType == "keyword" || r.action == "block")
  }

  predicate Exempts(r: Rule) {
    r.enabled && r.ruleType == "exempt" && r.action != "block"
  }

  ghost function Patterns(rules: seq<Rule>, kind: Rule -> bool): set<Word> {
    set r | r in rules && kind(r) && r.pattern != [] :: r.pattern
  }

  lemma PatternsNext(rules: seq<Rule>, r: Rule, kind: Rule -> bool)
    ensures Patterns(rules + [r], kind)
      == Patterns(rules, kind) + if kind(r) && r.pattern != [] then {r.pattern} else {}
  {
    var more := Patterns(rules + [r], kind);
    forall p | p in Patterns(rules, kind) ensures p in more {
      var q :| q in rules && kind(q) && q.pattern != [] && q.pattern == p;
      assert q in rules + [r];
    }
    if kind(r) && r.pattern != [] { assert r in rules + [r]; }
  }

  /** Inserting: keywords can be added; Searching: the failure links are built. */
  datatype Phase = Inserting | Searching | Broken

  ghost function PhaseOf(trie: AcTrie): Phase
    reads trie, trie.nodes
  {
    if trie.Building() then Inserting else if trie.Ready() then Searching else Broken
  }

  method InsertInto(trie: AcTrie, pattern: Word)
    requires PhaseOf(trie) == Inserting
    modifies trie, trie.nodes
    ensures PhaseOf(trie) == Inserting && (trie.nodes == old(trie.nodes) || fresh(trie.nodes))
    ensures trie.words == old(trie.words) + if pattern != [] then {pattern} else {}
  {
    var ok := trie.Insert(pattern);
  }

  /** The keyword part of guardrails_load_rules: both automata are ready to search for exactly the non-empty
      patterns of their rules. */
  method LoadRules(rules: seq<Rule>) returns (block: AcTrie, exempt: AcTrie)
    ensures block.Ready() && exempt.Ready() && fresh(block) && fresh(exempt)
    ensures block.words == set r | r in rules && r.enabled && r.ruleType != "webhook"
                                   && (r.ruleType == "keyword" || r.action == "block") && r.pattern != [] :: r.pattern
    ensures exempt.words == set r | r in rules && r.enabled && r.ruleType == "exempt" && r.action != "block"
                                    && r.pattern != [] :: r.pattern
  {
    block, exempt := InsertRules(rules);
    ghost var queued := block.BuildFailureLinks();
    queued := exempt.BuildFailureLinks();
  }

  /** Both tries before the failure links are built. */
  method InsertRules(rules: seq<Rule>) returns (block: AcTrie, exempt: AcTrie)
    ensures PhaseOf(block) == Inserting && block.words == Patterns(rules, Blocks)
    ensures PhaseOf(exempt) == Inserting && exempt.words == Patterns(rules, Exempts)
    ensures fresh(block) && fresh(exempt) && fresh(block.nodes) && fresh(exempt.nodes)
    ensures block != exempt && block.nodes != exempt.nodes
  {
    hide PhaseOf, Patterns;
    block := NewTrie();
    exempt := NewTrie();
    NoPatterns(Blocks);
    NoPatterns(Exempts);
    for i := 0 to |rules|
      invariant PhaseOf(block) == Inserting && block.words == Patterns(rules[..i], Blocks)
      invariant PhaseOf(exempt) == Inserting && exempt.words == Patterns(rules[..i], Exempts)
      invariant fresh(block) && fresh(block.nodes) && fresh(exempt) && fresh(exempt.nodes)
      invariant block != exempt && block.nodes != exempt.nodes
    {
      var r := rules[i];
      assert rules[..i + 1] == rules[..i] + [r];
      PatternsNext(rules[..i], r, Blocks);
      PatternsNext(rules[..i], r, Exempts);
      if !r.enabled {
        continue;
      }
      if r.ruleType == "webhook" {
        continue;
      }
      if r.ruleType == "keyword" || r.action == "block" {
        InsertInto(block, r.pattern);
      } else if r.ruleType == "exempt" {
        InsertInto(exempt, r.pattern);
      }
    }
    assert rules[..|rules|] == rules;
  }

  method NewTrie() returns (trie: AcTrie)
    ensures PhaseOf(trie) == Inserting && trie.words == {} && fresh(trie) && fresh(trie.nodes)
  {
    trie := new AcTrie();
  }

  lemma NoPatterns(kind: Rule -> bool)
    ensures Patterns([], kind) == {}
  {}
}
