/** Domain rules, `ixc_syscore/DNS/pylib/rule.py`: nested dictionaries with reference counts. Hosts and
    rules are given as their lower-case labels, the rightmost first. */
module RuleMatcher {
  import opened Bytes

  type Path = seq<string>

  datatype Info = Info(action: string, privData: int)

  const KEYWORDS: set<string> := {"refcnt", "action", "rule_info", "priv_data"}

  /** Labels that would collide with the dictionaries' own keys are renamed. */
  function Renamed(name: string): string {
    if name in KEYWORDS then "__" + name else name
  }

  function Keys(labels: seq<string>): (ks: Path)
    ensures |ks| == |labels| && forall i | 0 <= i < |labels| :: ks[i] == Renamed(labels[i])
  {
    seq(|labels|, i requires 0 <= i < |labels| => Renamed(labels[i]))
  }

  /** No empty label, and `*` at most as the whole leftmost label. */
  ghost predicate Wellformed(rule: seq<string>) {
    rule != [] && (forall i | 0 <= i < |rule| :: rule[i] != "") && (forall i | 0 <= i < |rule| - 1 :: rule[i] != "*")
  }

  // ---------- what a match means ----------

  /** The `*` rule of the longest suffix of at most n labels. */
  function Best(known: map<Path, Info>, ks: Path, n: nat): Option<Info>
    requires n <= |ks|
  {
    if ks[..n] + ["*"] in known then Some(known[ks[..n] + ["*"]])
    else if n == 0 then None
    else Best(known, ks, n - 1)
  }

  /** The exact rule if there is one, else the `*` rule of the longest suffix, the host itself included. */
  function Verdict(known: map<Path, Info>, ks: Path): Option<Info> {
    if ks in known then Some(known[ks]) else Best(known, ks, |ks|)
  }

  /** The same without recursion. */
  lemma {:induction false} BestIsLongest(known: map<Path, Info>, ks: Path, n: nat)
    requires n <= |ks|
    ensures Best(known, ks, n) == None <==> forall m: nat | m <= n :: ks[..m] + ["*"] !in known
    ensures Best(known, ks, n).Some? ==> exists m: nat ::
              && m <= n && ks[..m] + ["*"] in known && Best(known, ks, n) == Some(known[ks[..m] + ["*"]])
              && forall l: nat | m < l <= n :: ks[..l] + ["*"] !in known
  {
    if ks[..n] + ["*"] !in known && n > 0 {
      BestIsLongest(known, ks, n - 1);
    }
  }

  lemma {:induction false} BestOfPrefix(known: map<Path, Info>, ks: Path, ls: Path, n: nat)
    requires n <= |ks| && n <= |ls| && ks[..n] == ls[..n]
    ensures Best(known, ks, n) == Best(known, ls, n)
  {
    if n > 0 {
      assert ks[..n - 1] == ks[..n][..n - 1] && ls[..n - 1] == ls[..n][..n - 1];
      BestOfPrefix(known, ks, ls, n - 1);
    }
  }

  /** Longer suffixes without a rule do not count. */
  lemma {:induction false} BestSkips(known: map<Path, Info>, ks: Path, n: nat, m: nat)
    requires n <= m <= |ks| && forall l: nat | n < l <= m :: ks[..l] + ["*"] !in known
    ensures Best(known, ks, m) == Best(known, ks, n)
  {
    if n < m {
      BestSkips(known, ks, n, m - 1);
    }
  }

  // ---------- counting ----------

  /** How many rules run through a node. */
  ghost function Through(rules: set<seq<string>>, p: Path): nat {
    |set r | r in rules && p <= Keys(r)|
  }

  lemma ThroughAdd(rules: set<seq<string>>, rule: seq<string>, p: Path)
    requires rule !in rules
    ensures Through(rules + {rule}, p) == Through(rules, p) + if p <= Keys(rule) then 1 else 0
  {
    var before := set r | r in rules && p <= Keys(r);
    var after := set r | r in rules + {rule} && p <= Keys(r);
    assert after == before + if p <= Keys(rule) then {rule} else {};
  }

  lemma ThroughSome(rules: set<seq<string>>, p: Path)
    ensures Through(rules, p) > 0 <==> exists r :: r in rules && p <= Keys(r)
  {
    var s := set r | r in rules && p <= Keys(r);
    if r :| r in rules && p <= Keys(r) {
      assert r in s;
    } else {
      assert s == {};
    }
  }

  class Node {
    var children: map<string, Node>
    var refcnt: nat
    var info: Option<Info>

    constructor ()
      ensures children == map[] && refcnt == 0 && info == None
    {
      children, refcnt, info := map[], 0, None;
    }
  }

  class Matcher {
    var ruleTree: Node
    var rules: map<seq<string>, Info>

    // the tree by path, and what its nodes say
    ghost var tree: map<Path, Node>
    ghost var known: map<Path, Info>

    ghost predicate Shape()
      reads this`ruleTree, this`tree, tree.Values`children
    {
      && [] in tree && tree[[]] == ruleTree
      && (forall p, q | p in tree && q in tree && p != q :: tree[p] != tree[q])
      && (forall p {:trigger Parent(p)} | p in tree && p != [] :: Parent(p))
      && (forall p, x {:trigger Edge(p, x)} | p in tree :: Edge(p, x))
    }

    ghost predicate Parent(p: Path)
      requires p != []
      reads this`tree
    {
      p[..|p| - 1] in tree
    }

    ghost predicate Edge(p: Path, x: string)
      requires p in tree
      reads this`tree, tree.Values`children
    {
      && (x in tree[p].children <==> p + [x] in tree)
      && (x in tree[p].children ==> tree[p].children[x] == tree[p + [x]])
    }

    /** Counts while `extra`, if any, is being added and has been followed for n labels. */
    ghost predicate Counted(extra: Path, n: nat)
      reads this`tree, this`rules, tree.Values`refcnt
    {
      && (forall p | p in tree && p != [] ::
            tree[p].refcnt == Through(rules.Keys, p) + (if p <= extra && |p| <= n then 1 else 0) && tree[p].refcnt > 0)
      && (forall r | r in rules :: Wellformed(r) && Keys(r) in tree)
    }

    ghost predicate Informed()
      reads this`tree, this`known, tree.Values`info
    {
      && (forall p | p in tree :: tree[p].info == if p in known then Some(known[p]) else None)
      && (forall p | p in known :: p in tree && p != [])
    }

    /** Every live rule is known. */
    ghost predicate Told()
      reads this`rules, this`known
    {
      forall r | r in rules :: Keys(r) in known
    }

    ghost predicate Valid()
      reads this, tree.Values
    {
      Shape() && Counted([], 0) && Informed() && Told()
    }

    constructor ()
      ensures Valid() && rules == map[] && known == map[] && fresh(tree.Values)
    {
      var root := new Node();
      ruleTree, rules, tree, known := root, map[], map[[] := root], map[];
    }

    /** `clear`. */
    method Clear()
      modifies this
      ensures Valid() && rules == map[] && known == map[] && fresh(tree.Values)
    {
      var root := new Node();
      ruleTree, rules, tree, known := root, map[], map[[] := root], map[];
    }

    // ---------- match ----------

    /** `match`: one walk down the tree, and again with a shorter host as long as nothing is found. */
    method Match(host: seq<string>) returns (r: Option<Info>)
      requires Valid() && host != []
      ensures r == Verdict(known, Keys(host))
      decreases 2 * |host| - if host[|host| - 1] == "" then 1 else 0
    {
      hide *;
      ghost var ks := Keys(host);
      var o := ruleTree;
      var i := 0;
      AtRoot();
      assert ks[..0] == [];
      while i < |host|
        invariant 0 <= i <= |host| && ks[..i] in tree && o == tree[ks[..i]] && |ks| == |host|
      {
        var x := Renamed(host[i]);
        Child(ks, i, o);
        if x !in o.children { break; }
        o := o.children[x];
        i := i + 1;
      }
      Stopped(host, i);
      if i == |host| && o.info.Some? { return o.info; }
      if "*" in o.children { return o.children["*"].info; }
      if i == 0 { return None; }
      i := i - 1;
      Shorter(host, i);
      r := Match(host[..i] + [""]);
    }

    lemma AtRoot()
      requires Valid()
      ensures [] in tree && ruleTree == tree[[]]
    {
    }

    lemma Child(ks: Path, i: nat, o: Node)
      requires Valid() && i < |ks| && ks[..i] in tree && o == tree[ks[..i]]
      ensures ks[..i + 1] == ks[..i] + [ks[i]]
      ensures ks[i] in o.children <==> ks[..i + 1] in tree
      ensures ks[i] in o.children ==> o.children[ks[i]] == tree[ks[..i + 1]]
    {
      hide Counted, Informed, Told;
      assert Edge(ks[..i], ks[i]);
      assert ks[..i + 1] == ks[..i] + [ks[i]];
    }

    /** Every node is on the way of some rule. */
    lemma OnRule(p: Path) returns (r: seq<string>)
      requires Valid() && p in tree && p != []
      ensures r in rules && p <= Keys(r) && Wellformed(r)
    {
      ThroughSome(rules.Keys, p);
      r :| r in rules.Keys && p <= Keys(r);
    }

    lemma Names(name: string)
      ensures Renamed(name) == "" <==> name == ""
      ensures Renamed(name) == "*" <==> name == "*"
    {
    }

    /** A `*` node belongs to a rule that ends there. */
    lemma StarKnown(p: Path)
      requires Valid() && p + ["*"] in tree
      ensures p + ["*"] in known && tree[p + ["*"]].info == Some(known[p + ["*"]])
    {
      var r := OnRule(p + ["*"]);
      Names(r[|p|]);
      assert Keys(r)[|p|] == (p + ["*"])[|p|];
      assert |p| == |r| - 1;
      assert Keys(r) == p + ["*"];
    }

    lemma NoEmptyLabel(p: Path, i: nat)
      requires Valid() && p in tree && i < |p|
      ensures p[i] != ""
    {
      var r := OnRule(p);
      Names(r[i]);
      assert Keys(r)[i] == p[i];
    }

    lemma {:induction false} PrefixClosed(p: Path, n: nat)
      requires Shape() && p in tree && n <= |p|
      ensures p[..n] in tree
      decreases |p|
    {
      if n < |p| {
        assert Parent(p);
        PrefixClosed(p[..|p| - 1], n);
        assert p[..|p| - 1][..n] == p[..n];
      } else {
        assert p[..n] == p;
      }
    }

    /** What the walk has found out when it stops after i labels. */
    lemma Stopped(host: seq<string>, i: nat)
      requires Valid() && i <= |host| && Keys(host)[..i] in tree
      requires i < |host| ==> Keys(host)[..i + 1] !in tree
      ensures var ks := Keys(host); var o := tree[ks[..i]];
        && (if i == |host| then o.info == (if ks in known then Some(known[ks]) else None) else ks !in known)
        && (ks in known ==> Verdict(known, ks) == Some(known[ks]))
        && (ks !in known && "*" in o.children ==> o.children["*"].info == Verdict(known, ks))
        && (ks !in known && "*" !in o.children && i == 0 ==> Verdict(known, ks) == None)
        && (ks !in known && "*" !in o.children && i > 0 ==> Verdict(known, ks) == Best(known, ks, i - 1))
        && (0 < i == |host| ==> host[i - 1] != "")
    {
      hide Counted, Wellformed;
      var ks := Keys(host);
      if i < |host| {
        if ks in known {
          PrefixClosed(ks, i + 1);
        }
      } else {
        assert ks[..i] == ks;
        if i > 0 {
          Names(host[i - 1]);
          NoEmptyLabel(ks, i - 1);
        }
      }
      assert Edge(ks[..i], "*");
      forall l: nat | i < l <= |ks|
        ensures ks[..l] + ["*"] !in known
      {
        assert (ks[..l] + ["*"])[..i + 1] == ks[..i + 1];
        if ks[..l] + ["*"] in known {
          PrefixClosed(ks[..l] + ["*"], i + 1);
        }
      }
      BestSkips(known, ks, i, |ks|);
      if ks[..i] + ["*"] in tree {
        StarKnown(ks[..i]);
      }
    }

    /** Looking up the shorter host is going on with the shorter suffix. */
    lemma Shorter(host: seq<string>, i: nat)
      requires Valid() && i < |host|
      ensures Verdict(known, Keys(host[..i] + [""])) == Best(known, Keys(host), i)
    {
      hide Counted, Wellformed;
      var ks, ls := Keys(host), Keys(host[..i] + [""]);
      Names("");
      assert ls[i] == "" && ls[..i + 1] == ls;
      if ls in known {
        NoEmptyLabel(ls, i);
      }
      if ls[..i + 1] + ["*"] in known {
        NoEmptyLabel(ls[..i + 1] + ["*"], i);
      }
      assert ls[..i] == ks[..i];
      BestOfPrefix(known, ls, ks, i);
    }

    // ---------- add_rule ----------

    /** `add_rule`. */
    method AddRule(rule: seq<string>, info: Info) returns (ok: bool)
      requires Valid() && Wellformed(rule)
      modifies this`rules, this`tree, this`known, tree.Values
      ensures Valid() && (ok <==> rule !in old(rules)) && fresh(tree.Values - old(tree.Values))
      ensures rules == if ok then old(rules)[rule := info] else old(rules)
      ensures known == if ok then old(known)[Keys(rule) := info] else old(known)
    {
      hide *;
      if rule in rules { return false; }
      ghost var ks := Keys(rule);
      var o := ruleTree;
      var n := 0;
      AddBegins(ks);
      assert ks[..0] == [];
      while n < |rule|
        invariant 0 <= n <= |rule| == |ks| && ks[..n] in tree && o == tree[ks[..n]]
        invariant Shape() && Counted(ks, n) && Informed() && Told()
        invariant rules == old(rules) && known == old(known) && fresh(tree.Values - old(tree.Values))
      {
        o := Enter(o, Renamed(rule[n]), ks, n);
        n := n + 1;
      }
      assert ks[..n] == ks;
      Commit(rule, info, o);
      ok := true;
    }

    method Commit(rule: seq<string>, info: Info, o: Node)
      requires Shape() && Counted(Keys(rule), |rule|) && Informed() && Told() && Wellformed(rule) && rule !in rules
      requires Keys(rule) in tree && o == tree[Keys(rule)]
      modifies this`rules, this`known, o`info
      ensures Valid() && rules == old(rules)[rule := info] && known == old(known)[Keys(rule) := info]
    {
      hide *;
      Separate(Keys(rule));
      o.info := Some(info);
      known := known[Keys(rule) := info];
      rules := rules[rule := info];
      AddEnds(rule, info);
    }

    lemma AddBegins(ks: Path)
      requires Valid()
      ensures [] in tree && ruleTree == tree[[]] && Shape() && Counted(ks, 0) && Informed() && Told()
    {
    }

    /** One label further down, on a new node if need be; either way one rule more runs through it. */
    method Enter(o: Node, x: string, ghost ks: Path, ghost n: nat) returns (c: Node)
      requires Shape() && Counted(ks, n) && Informed() && Told()
      requires n < |ks| && ks[..n] in tree && o == tree[ks[..n]] && x == ks[n]
      modifies this`tree, o`children, tree.Values`refcnt
      ensures Shape() && Counted(ks, n + 1) && Informed() && Told() && fresh(tree.Values - old(tree.Values))
      ensures ks[..n + 1] in tree && c == tree[ks[..n + 1]]
    {
      hide *;
      NextEdge(ks, n);
      Separate(ks[..n]);
      if x !in o.children {
        c := new Node();
        o.children := o.children[x := c];
        tree := tree[ks[..n + 1] := c];
        GrownShape(ks, n, c);
      } else {
        c := o.children[x];
      }
      Separate(ks[..n + 1]);
      c.refcnt := c.refcnt + 1;
      OneMoreThrough(ks, n, c);
      SameInfo(ks, n, c);
    }

    lemma Separate(p: Path)
      requires Shape() && p in tree
      ensures forall q | q in tree && q != p :: tree[q] != tree[p]
    {
    }

    lemma NextEdge(ks: Path, n: nat)
      requires Shape() && n < |ks| && ks[..n] in tree
      ensures ks[..n + 1] == ks[..n] + [ks[n]]
      ensures ks[n] in tree[ks[..n]].children <==> ks[..n + 1] in tree
      ensures ks[n] in tree[ks[..n]].children ==> tree[ks[..n]].children[ks[n]] == tree[ks[..n + 1]]
    {
      assert Edge(ks[..n], ks[n]);
      assert ks[..n + 1] == ks[..n] + [ks[n]];
    }

    twostate lemma GrownShape(ks: Path, new n: nat, new c: Node)
      requires old(Shape()) && n < |ks| && ks[..n] in old(tree) && ks[..n + 1] !in old(tree)
      requires !old(allocated(c)) && c.children == map[] && ruleTree == old(ruleTree)
      requires tree == old(tree)[ks[..n + 1] := c]
      requires tree[ks[..n]].children == old(tree[ks[..n]].children)[ks[n] := c]
      requires forall p | p in old(tree) && p != ks[..n] :: tree[p].children == old(tree[p].children)
      ensures Shape()
    {
      var q := ks[..n + 1];
      assert q == ks[..n] + [ks[n]] && q[..|q| - 1] == ks[..n];
      forall p | p in tree && p != []
        ensures Parent(p)
      {
        if p != q {
          assert old(Parent(p));
        }
      }
      forall p, x | p in tree
        ensures Edge(p, x)
      {
        if p in old(tree) {
          assert old(Edge(p, x));
          if p + [x] == q {
            assert p == (p + [x])[..|p|] == ks[..n] && x == (p + [x])[|p|] == ks[n];
          }
        } else {
          assert (p + [x])[..|p|] == p;
          assert p + [x] in old(tree) ==> old(Parent(p + [x]));
        }
      }
    }

    twostate lemma OneMoreThrough(ks: Path, new n: nat, new c: Node)
      requires old(Shape()) && old(Counted(ks, n)) && Shape() && n < |ks| && rules == old(rules)
      requires ks[..n + 1] in tree && c == tree[ks[..n + 1]] && tree == old(tree)[ks[..n + 1] := c]
      requires if ks[..n + 1] in old(tree) then old(tree)[ks[..n + 1]] == c
        && c.refcnt == old(tree[ks[..n + 1]].refcnt) + 1 else c.refcnt == 1
      requires forall p | p in old(tree) && p != ks[..n + 1] :: tree[p].refcnt == old(tree[p].refcnt)
      ensures Counted(ks, n + 1)
    {
      hide Wellformed, Keys, Through;
      var q := ks[..n + 1];
      if q !in old(tree) {
        NoneThrough(q);
      }
      forall p | p in tree && p != []
        ensures tree[p].refcnt == Through(rules.Keys, p) + (if p <= ks && |p| <= n + 1 then 1 else 0)
          && tree[p].refcnt > 0
      {
        if p != q {
          assert p <= ks && |p| <= n + 1 ==> p == ks[..|p|] && |p| <= n;
        }
      }
    }

    twostate lemma NoneThrough(q: Path)
      requires old(Shape()) && (forall r | r in old(rules) :: Keys(r) in old(tree)) && q !in old(tree)
      ensures Through(old(rules).Keys, q) == 0
    {
      ThroughSome(old(rules).Keys, q);
      if r :| r in old(rules) && q <= Keys(r) {
        assert Keys(r)[..|q|] == q;
        OldPrefix(Keys(r), |q|);
      }
    }

    twostate lemma {:induction false} OldPrefix(p: Path, new n: nat)
      requires old(Shape()) && p in old(tree) && n <= |p|
      ensures p[..n] in old(tree)
      decreases |p|
    {
      if n < |p| {
        assert old(Parent(p));
        OldPrefix(p[..|p| - 1], n);
        assert p[..|p| - 1][..n] == p[..n];
      } else {
        assert p[..n] == p;
      }
    }

    twostate lemma SameInfo(ks: Path, new n: nat, new c: Node)
      requires old(Informed()) && old(Told()) && n < |ks| && known == old(known) && rules == old(rules)
      requires ks[..n + 1] in tree && c == tree[ks[..n + 1]] && tree == old(tree)[ks[..n + 1] := c]
      requires if ks[..n + 1] in old(tree) then old(tree)[ks[..n + 1]] == c && c.info == old(tree[ks[..n + 1]].info)
        else c.info == None
      requires forall p | p in old(tree) && p != ks[..n + 1] :: tree[p].info == old(tree[p].info)
      ensures Informed() && Told()
    {
      hide Keys;
    }

    twostate lemma AddEnds(rule: seq<string>, new info: Info)
      requires old(Shape()) && old(Counted(Keys(rule), |rule|)) && old(Informed()) && old(Told())
      requires rule !in old(rules) && Wellformed(rule) && Keys(rule) in old(tree)
      requires rules == old(rules)[rule := info] && known == old(known)[Keys(rule) := info] && tree == old(tree)
        && ruleTree == old(ruleTree)
      requires forall p | p in tree ::
        tree[p].children == old(tree[p].children) && tree[p].refcnt == old(tree[p].refcnt)
      requires tree[Keys(rule)].info == Some(info)
      requires forall p | p in tree && p != Keys(rule) :: tree[p].info == old(tree[p].info)
      ensures Valid()
    {
      hide *;
      AddedShape();
      AddedCount(rule, info);
      AddedInfo(rule, info);
      ValidIntro();
    }

    lemma ValidIntro()
      requires Shape() && Counted([], 0) && Informed() && Told()
      ensures Valid()
    {
    }

    twostate lemma AddedShape()
      requires old(Shape()) && tree == old(tree) && ruleTree == old(ruleTree)
      requires forall p | p in tree :: tree[p].children == old(tree[p].children)
      ensures Shape()
    {
      forall p | p in tree && p != []
        ensures Parent(p)
      {
        assert old(Parent(p));
      }
      forall p, x | p in tree
        ensures Edge(p, x)
      {
        assert old(Edge(p, x));
      }
    }

    twostate lemma AddedCount(rule: seq<string>, new info: Info)
      requires old(Counted(Keys(rule), |rule|)) && rule !in old(rules) && Wellformed(rule) && Keys(rule) in old(tree)
      requires rules == old(rules)[rule := info] && tree == old(tree)
      requires forall p | p in tree :: tree[p].refcnt == old(tree[p].refcnt)
      ensures Counted([], 0)
    {
      hide Wellformed, Through;
      assert rules.Keys == old(rules).Keys + {rule};
      forall p | p in tree && p != []
        ensures tree[p].refcnt == Through(rules.Keys, p) && tree[p].refcnt > 0
      {
        ThroughAdd(old(rules).Keys, rule, p);
      }
    }

    twostate lemma AddedInfo(rule: seq<string>, new info: Info)
      requires old(Informed()) && old(Told()) && Wellformed(rule) && Keys(rule) in old(tree) && tree == old(tree)
      requires rules == old(rules)[rule := info] && known == old(known)[Keys(rule) := info]
      requires tree[Keys(rule)].info == Some(info)
      requires forall p | p in tree && p != Keys(rule) :: tree[p].info == old(tree[p].info)
      ensures Informed() && Told()
    {
    }

    // ---------- del_rule ----------

    /** Counts while a rule is being taken out and has been followed for n labels. */
    ghost predicate Released(ks: Path, n: nat)
      reads this`tree, this`rules, tree.Values`refcnt
    {
      && (forall p | p in tree && p != [] ::
            tree[p].refcnt == Through(rules.Keys, p) - (if p <= ks && |p| <= n then 1 else 0) && tree[p].refcnt > 0)
      && (forall r | r in rules :: Wellformed(r) && Keys(r) in tree)
    }

    /** `del_rule`: what no rule runs through any more goes; what one still does stays as it is, so the
        deleted rule itself is forgotten exactly when no live rule extends it. */
    method DelRule(rule: seq<string>) returns (ok: bool)
      requires Valid()
      modifies this`rules, this`tree, this`known, tree.Values
      ensures Valid() && tree.Values <= old(tree.Values) && (ok <==> rule in old(rules))
      ensures rules == if ok then old(rules) - {rule} else old(rules)
      ensures !ok ==> known == old(known)
      ensures ok ==> known == map p | p in old(known) && Through(rules.Keys, p) > 0 :: old(known)[p]
    {
      hide *;
      if rule !in rules { return false; }
      DelBegins(rule);
      var found := Walk(rule);
      assert found;
      ghost var ks := Keys(rule);
      var o := ruleTree;
      var n := 0;
      assert ks[..0] == [];
      while n < |rule|
        invariant 0 <= n <= |rule| == |ks| && ks[..n] in tree && o == tree[ks[..n]] && ks in tree && rule in rules
        invariant Shape() && Released(ks, n) && Informed() && Told()
        invariant rules == old(rules) && known == old(known) && tree == old(tree)
        decreases |rule| - n
      {
        var x := Renamed(rule[n]);
        NextEdge(ks, n);
        OnTheWay(ks, n);
        var t := o;
        o := o.children[x];
        var last := Release(o, ks, n);
        if last {
          Cut(t, x, ks, n, rule);
          break;
        }
        n := n + 1;
      }
      if n == |rule| {
        assert ks[..n] == ks;
        AllReleased(rule);
        NothingForgotten(rule);
      }
      label Parting:
      rules := rules - {rule};
      DelEnds@Parting(rule, old(known));
      ok := true;
    }

    /** The first walk of `del_rule`. */
    method Walk(rule: seq<string>) returns (found: bool)
      requires Valid()
      ensures found <==> Keys(rule) in tree
    {
      hide *;
      ghost var ks := Keys(rule);
      var o := ruleTree;
      var n := 0;
      AtRoot();
      assert ks[..0] == [];
      while n < |rule|
        invariant 0 <= n <= |rule| == |ks| && ks[..n] in tree && o == tree[ks[..n]]
      {
        var x := Renamed(rule[n]);
        Child(ks, n, o);
        if x !in o.children {
          NotBelow(ks, n);
          return false;
        }
        o := o.children[x];
        n := n + 1;
      }
      assert ks[..n] == ks;
      return true;
    }

    lemma NotBelow(ks: Path, n: nat)
      requires Valid() && n < |ks| && ks[..n + 1] !in tree
      ensures ks !in tree
    {
      if ks in tree {
        PrefixClosed(ks, n + 1);
      }
    }

    lemma DelBegins(rule: seq<string>)
      requires Valid() && rule in rules
      ensures [] in tree && ruleTree == tree[[]] && Shape() && Released(Keys(rule), 0) && Informed() && Told()
        && Keys(rule) in tree
    {
    }

    lemma OnTheWay(ks: Path, n: nat)
      requires Shape() && ks in tree && n < |ks|
      ensures ks[..n + 1] in tree
    {
      PrefixClosed(ks, n + 1);
    }

    /** One rule less runs through the node; is it the last? */
    method Release(c: Node, ghost ks: Path, ghost n: nat) returns (last: bool)
      requires Shape() && Released(ks, n) && Informed()
      requires n < |ks| && ks[..n + 1] in tree && c == tree[ks[..n + 1]]
      modifies c`refcnt
      ensures Shape() && Informed() && (last <==> c.refcnt == 0) && c.refcnt == old(c.refcnt) - 1
      ensures !last ==> Released(ks, n + 1)
      ensures last ==> LastThrough(ks, n)
    {
      hide *;
      Separate(ks[..n + 1]);
      HasCount(ks, n);
      c.refcnt := c.refcnt - 1;
      last := c.refcnt == 0;
      OneLess(ks, n);
    }

    lemma HasCount(ks: Path, n: nat)
      requires Released(ks, n) && n < |ks| && ks[..n + 1] in tree
      ensures tree[ks[..n + 1]].refcnt > 0
    {
    }

    /** No rule but the one being deleted runs through the node at depth n + 1. */
    ghost predicate LastThrough(ks: Path, n: nat)
      reads this`tree, this`rules, tree.Values`refcnt
    {
      && n < |ks| && ks[..n + 1] in tree && Through(rules.Keys, ks[..n + 1]) == 1
      && (forall p | p in tree && p != [] && !(ks[..n + 1] <= p) ::
            tree[p].refcnt == Through(rules.Keys, p) - (if p <= ks then 1 else 0) && tree[p].refcnt > 0)
      && (forall r | r in rules :: Wellformed(r) && Keys(r) in tree)
    }

    twostate lemma OneLess(ks: Path, new n: nat)
      requires old(Released(ks, n)) && tree == old(tree) && rules == old(rules) && n < |ks| && ks[..n + 1] in tree
      requires tree[ks[..n + 1]].refcnt == old(tree[ks[..n + 1]].refcnt) - 1
      requires forall p | p in tree && p != ks[..n + 1] :: tree[p].refcnt == old(tree[p].refcnt)
      ensures tree[ks[..n + 1]].refcnt > 0 ==> Released(ks, n + 1)
      ensures tree[ks[..n + 1]].refcnt == 0 ==> LastThrough(ks, n)
    {
      hide Wellformed, Keys, Through;
      var q := ks[..n + 1];
      forall p | p in tree && p != [] && p != q
        ensures p <= ks && |p| <= n <==> p <= ks && |p| <= n + 1
        ensures !(q <= p) ==> (p <= ks <==> p <= ks && |p| <= n)
      {
        Prefixes(p, ks, n);
      }
    }

    /** The prefixes of ks up to length n are those that do not contain the one of length n + 1. */
    lemma Prefixes(p: Path, ks: Path, n: nat)
      requires n < |ks| && p != ks[..n + 1]
      ensures p <= ks && |p| <= n <==> p <= ks && |p| <= n + 1
      ensures !(ks[..n + 1] <= p) ==> (p <= ks <==> p <= ks && |p| <= n)
    {
      if p <= ks {
        assert p == ks[..|p|];
        assert |p| >= n + 1 ==> ks[..n + 1] == p[..n + 1];
      }
    }

    /** All nodes and all other rules have their final counts. */
    ghost predicate Parted(rule: seq<string>)
      reads this`tree, this`rules, this`known, tree.Values`refcnt
    {
      && (forall p | p in tree && p != [] :: tree[p].refcnt == Through(rules.Keys - {rule}, p) && tree[p].refcnt > 0)
      && (forall r | r in rules && r != rule :: Wellformed(r) && Keys(r) in tree && Keys(r) in known)
    }

    lemma AllReleased(rule: seq<string>)
      requires rule in rules && Released(Keys(rule), |Keys(rule)|) && Told()
      ensures Parted(rule)
    {
      hide Wellformed, Through;
      assert (rules.Keys - {rule}) + {rule} == rules.Keys;
      forall p | p in tree && p != []
        ensures tree[p].refcnt == Through(rules.Keys - {rule}, p)
      {
        ThroughAdd(rules.Keys - {rule}, rule, p);
      }
    }

    /** Only what some other rule runs through is still known. */
    ghost predicate Forgot(before: map<Path, Info>, rule: seq<string>)
      reads this`rules, this`known
    {
      known == map p | p in before && Through(rules.Keys - {rule}, p) > 0 :: before[p]
    }

    lemma NothingForgotten(rule: seq<string>)
      requires Parted(rule) && Informed()
      ensures Forgot(known, rule)
    {
      hide Through, Wellformed, Keys;
      assert forall p | p in known :: Through(rules.Keys - {rule}, p) > 0;
    }

    /** The node goes with all below it: nothing but the deleted rule ran through them. */
    method Cut(t: Node, x: string, ghost ks: Path, ghost n: nat, ghost rule: seq<string>)
      requires Shape() && Informed() && Told() && LastThrough(ks, n) && rule in rules && ks == Keys(rule)
      requires n < |ks| && ks[..n] in tree && t == tree[ks[..n]] && x == ks[n]
      modifies this`tree, this`known, t`children
      ensures Shape() && Informed() && Parted(rule) && Forgot(old(known), rule) && tree.Values <= old(tree.Values)
    {
      hide *;
      Separate(ks[..n]);
      t.children := t.children - {x};
      tree := map p | p in tree && !(ks[..n + 1] <= p) :: tree[p];
      known := map p | p in known && !(ks[..n + 1] <= p) :: known[p];
      CutShape(ks, n);
      CutInfo(ks, n);
      CutCount(rule, n);
      CutForgot(rule, n);
    }

    twostate lemma CutShape(ks: Path, new n: nat)
      requires old(Shape()) && n < |ks| && ks[..n] in old(tree) && ruleTree == old(ruleTree)
      requires tree == map p | p in old(tree) && !(ks[..n + 1] <= p) :: old(tree)[p]
      requires old(tree)[ks[..n]].children == old(tree[ks[..n]].children) - {ks[n]}
      requires forall p | p in old(tree) && p != ks[..n] :: old(tree)[p].children == old(tree[p].children)
      ensures Shape()
    {
      hide Parent, Edge;
      var q := ks[..n + 1];
      assert !(q <= []);
      forall p | p in tree && p != []
        ensures Parent(p)
      {
        assert old(Parent(p));
        CutParent(q, p);
      }
      forall p, x | p in tree
        ensures Edge(p, x)
      {
        assert old(Edge(p, x));
        CutEdge(ks, n, p, x);
      }
    }

    twostate lemma CutParent(q: Path, new p: Path)
      requires p in tree && p != [] && old(Parent(p))
      requires tree == map r | r in old(tree) && !(q <= r) :: old(tree)[r]
      ensures Parent(p)
    {
      var up := p[..|p| - 1];
      assert p == up + [p[|p| - 1]];
      Below(q, up, p[|p| - 1]);
    }

    twostate lemma CutEdge(ks: Path, new n: nat, new p: Path, new x: string)
      requires n < |ks| && ks[..n] in old(tree) && p in tree && p in old(tree) && old(Edge(p, x))
      requires tree == map r | r in old(tree) && !(ks[..n + 1] <= r) :: old(tree)[r]
      requires p != ks[..n] ==> tree[p].children == old(tree[p].children)
      requires p == ks[..n] ==> tree[p].children == old(tree[p].children) - {ks[n]}
      ensures Edge(p, x)
    {
      Below(ks[..n + 1], p, x);
      assert ks[..n + 1] == ks[..n] + [ks[n]];
      assert (p + [x])[..|p|] == p && (p + [x])[|p|] == x;
      assert (ks[..n] + [ks[n]])[..n] == ks[..n];
      assert p + [x] == ks[..n + 1] <==> p == ks[..n] && x == ks[n];
    }

    lemma Below(q: Path, p: Path, x: string)
      ensures q <= p + [x] <==> q <= p || q == p + [x]
    {
      if q <= p + [x] && q != p + [x] {
        assert q == (p + [x])[..|q|] == p[..|q|];
      }
    }

    twostate lemma CutInfo(ks: Path, new n: nat)
      requires old(Informed()) && n < |ks|
      requires tree == map p | p in old(tree) && !(ks[..n + 1] <= p) :: old(tree)[p]
      requires known == map p | p in old(known) && !(ks[..n + 1] <= p) :: old(known)[p]
      requires forall p | p in old(tree) :: old(tree)[p].info == old(tree[p].info)
      ensures Informed() && tree.Values <= old(tree.Values)
    {
    }

    twostate lemma CutCount(rule: seq<string>, new n: nat)
      requires old(LastThrough(Keys(rule), n)) && old(Told()) && rule in rules && rules == old(rules) && n < |rule|
      requires tree == map p | p in old(tree) && !(Keys(rule)[..n + 1] <= p) :: old(tree)[p]
      requires known == map p | p in old(known) && !(Keys(rule)[..n + 1] <= p) :: old(known)[p]
      requires forall p | p in old(tree) :: old(tree)[p].refcnt == old(tree[p].refcnt)
      ensures Parted(rule)
    {
      hide Wellformed, Through;
      var q := Keys(rule)[..n + 1];
      NoOther(rule, q);
      assert (rules.Keys - {rule}) + {rule} == rules.Keys;
      forall p | p in tree && p != []
        ensures tree[p].refcnt == Through(rules.Keys - {rule}, p) && tree[p].refcnt > 0
      {
        ThroughAdd(rules.Keys - {rule}, rule, p);
      }
    }

    twostate lemma CutForgot(rule: seq<string>, new n: nat)
      requires Parted(rule) && Informed() && old(LastThrough(Keys(rule), n)) && rule in rules && rules == old(rules)
        && n < |rule|
      requires known == map p | p in old(known) && !(Keys(rule)[..n + 1] <= p) :: old(known)[p]
      ensures Forgot(old(known), rule)
    {
      hide Wellformed;
      var q := Keys(rule)[..n + 1];
      NoOther(rule, q);
      forall p | p in old(known)
        ensures Through(rules.Keys - {rule}, p) > 0 <==> !(q <= p)
      {
        if q <= p {
          ThroughSome(rules.Keys - {rule}, p);
        } else {
          assert p in known && p in tree;
        }
      }
    }

    /** A node with one rule left has none without that rule. */
    lemma NoOther(rule: seq<string>, q: Path)
      requires rule in rules && q <= Keys(rule) && Through(rules.Keys, q) == 1
      ensures Through(rules.Keys - {rule}, q) == 0
      ensures forall r | r in rules && r != rule :: !(q <= Keys(r))
    {
      assert (rules.Keys - {rule}) + {rule} == rules.Keys;
      ThroughAdd(rules.Keys - {rule}, rule, q);
      ThroughSome(rules.Keys - {rule}, q);
    }

    twostate lemma DelEnds(rule: seq<string>, new before: map<Path, Info>)
      requires old(Shape()) && old(Informed()) && old(Parted(rule)) && old(Forgot(before, rule))
        && rules == old(rules) - {rule}
      requires tree == old(tree) && known == old(known) && ruleTree == old(ruleTree)
      requires forall p | p in tree :: unchanged(tree[p])
      ensures Valid() && known == map p | p in before && Through(rules.Keys, p) > 0 :: before[p]
    {
      hide Wellformed, Keys, Shape, Through;
      AddedShape();
      assert rules.Keys == old(rules).Keys - {rule};
    }

    /** The exact condition under which a rule is still known after its deletion: another live rule
        extends it. */
    lemma StaysBehind(rule: seq<string>)
      requires Valid() && rule in rules
      ensures var left := rules - {rule};
        Keys(rule) in (map p | p in known && Through(left.Keys, p) > 0 :: known[p]) <==>
          exists r :: r in left && Keys(rule) <= Keys(r)
    {
      hide Shape, Counted, Informed, Through, Keys;
      var left := rules - {rule};
      ThroughSome(left.Keys, Keys(rule));
      assert forall r :: r in left.Keys <==> r in left;
    }
  }

  // ---------- what the caller sees ----------

  /** The labels that are renamed are the tree's own keys. */
  lemma Keywords(name: string)
    ensures Renamed(name) != name <==> name in {"refcnt", "action", "rule_info", "priv_data"}
    ensures Renamed(name) == name || Renamed(name) == "__" + name
  {
    assert |"__" + name| == |name| + 2;
  }

  /** Two labels are kept under one key exactly when one is a keyword and the other its replacement. */
  lemma Collisions(a: string, b: string)
    ensures Renamed(a) == Renamed(b) && a != b <==> (a in KEYWORDS && b == "__" + a) || (b in KEYWORDS && a == "__" + b)
  {
    if a in KEYWORDS && b in KEYWORDS && "__" + a == "__" + b {
      assert a == ("__" + a)[2..] == ("__" + b)[2..] == b;
    }
    forall k | k in KEYWORDS
      ensures "__" + k !in KEYWORDS
    {
      assert ("__" + k)[0] == '_';
      assert "refcnt"[0] == 'r' && "action"[0] == 'a' && "rule_info"[0] == 'r' && "priv_data"[0] == 'p';
    }
  }

  /** A run in which a host is matched by a rule that has been deleted: another rule extends it. */
  method StillMatched(info: Info) returns (m: Matcher, r: Option<Info>)
    ensures m.Valid() && ["com", "a"] !in m.rules && r == Some(info)
  {
    hide *;
    m := new Matcher();
    Domains();
    var _ := m.AddRule(["com", "a"], info);
    var _ := m.AddRule(["com", "a", "x"], info);
    var _ := m.DelRule(["com", "a"]);
    ghost var ks := Keys(["com", "a"]);
    assert ["com", "a", "x"] in m.rules.Keys && ks <= Keys(["com", "a", "x"]);
    ThroughSome(m.rules.Keys, ks);
    r := m.Match(["com", "a"]);
    ExactFirst(m.known, ks);
  }

  lemma Domains()
    ensures Wellformed(["com", "a"]) && Wellformed(["com", "a", "x"])
    ensures Keys(["com", "a"]) == ["com", "a"] && Keys(["com", "a", "x"]) == ["com", "a", "x"]
  {
  }

  lemma ExactFirst(known: map<Path, Info>, ks: Path)
    ensures ks in known ==> Verdict(known, ks) == Some(known[ks])
  {
  }

  /** A keyword and its replacement are kept under one key. */
  lemma CollisionExample()
    ensures Renamed("refcnt") == Renamed("__refcnt") && "refcnt" != "__refcnt"
  {
    Collisions("refcnt", "__refcnt");
  }

  /** No label reads like a replaced keyword. */
  ghost predicate Plain(labels: seq<string>) {
    forall i, k | 0 <= i < |labels| && k in KEYWORDS :: labels[i] != "__" + k
  }

  lemma KeysInjective(a: seq<string>, b: seq<string>)
    requires Plain(a) && Plain(b)
    ensures Keys(a) == Keys(b) ==> a == b
  {
    if Keys(a) == Keys(b) {
      forall i | 0 <= i < |a|
        ensures a[i] == b[i]
      {
        assert Keys(a)[i] == Keys(b)[i];
        Collisions(a[i], b[i]);
      }
    }
  }

  ghost predicate AllPlain(rules: map<seq<string>, Info>) {
    forall r | r in rules :: Plain(r)
  }

  /** The tree knows the live rules and nothing else. */
  ghost predicate Clean(rules: map<seq<string>, Info>, known: map<Path, Info>) {
    && (forall r | r in rules :: Keys(r) in known && known[Keys(r)] == rules[r])
    && (forall p | p in known :: exists r :: r in rules && Keys(r) == p)
  }

  /** Adding a rule keeps the tree clean. */
  lemma AddKeepsClean(rules: map<seq<string>, Info>, known: map<Path, Info>, rule: seq<string>, info: Info)
    requires Clean(rules, known) && AllPlain(rules) && Plain(rule) && rule !in rules
    ensures Clean(rules[rule := info], known[Keys(rule) := info]) && AllPlain(rules[rule := info])
  {
    hide Plain, Keys;
    forall r | r in rules
      ensures Keys(r) != Keys(rule)
    {
      KeysInjective(r, rule);
    }
    var more := rules[rule := info];
    var bigger := known[Keys(rule) := info];
    forall p | p in bigger
      ensures exists r :: r in more && Keys(r) == p
    {
      if p == Keys(rule) {
        assert rule in more;
      } else {
        var r :| r in rules && Keys(r) == p;
        assert r in more;
      }
    }
  }

  /** Deleting a rule keeps the tree clean if and only if no other live rule extends it. */
  lemma DelKeepsClean(rules: map<seq<string>, Info>, known: map<Path, Info>, rule: seq<string>)
    requires Clean(rules, known) && AllPlain(rules) && rule in rules
    ensures var left := rules - {rule};
      Clean(left, map p | p in known && Through(left.Keys, p) > 0 :: known[p]) <==>
        !exists r :: r in left && Keys(rule) <= Keys(r)
  {
    hide Plain, Keys, Through;
    var left := rules - {rule};
    var after := map p | p in known && Through(left.Keys, p) > 0 :: known[p];
    ThroughSome(left.Keys, Keys(rule));
    forall r | r in left
      ensures Keys(r) in after && after[Keys(r)] == left[r] && Keys(r) != Keys(rule)
    {
      KeysInjective(r, rule);
      ThroughSome(left.Keys, Keys(r));
      assert r in left.Keys && Keys(r) <= Keys(r);
    }
    forall p | p in after && p != Keys(rule)
      ensures exists r :: r in left && Keys(r) == p
    {
      var r :| r in rules && Keys(r) == p;
      assert r in left;
    }
    assert Keys(rule) in after <==> exists r :: r in left && Keys(rule) <= Keys(r);
  }

  /** In a clean tree the verdict is the exact rule if there is one, else the `*` rule of the longest
      suffix of the host, the host itself included; and none if there is no such rule. */
  lemma CleanVerdict(rules: map<seq<string>, Info>, known: map<Path, Info>, host: seq<string>)
    requires Clean(rules, known) && AllPlain(rules) && Plain(host)
    ensures host in rules ==> Verdict(known, Keys(host)) == Some(rules[host])
    ensures host !in rules ==>
      match Verdict(known, Keys(host))
      case None => forall m: nat | m <= |host| :: host[..m] + ["*"] !in rules
      case Some(v) => exists m: nat ::
        m <= |host| && host[..m] + ["*"] in rules && v == rules[host[..m] + ["*"]]
        && forall l: nat | m < l <= |host| :: host[..l] + ["*"] !in rules
  {
    var ks := Keys(host);
    SameKey(rules, known, host);
    forall m: nat | m <= |host|
      ensures ks[..m] + ["*"] in known <==> host[..m] + ["*"] in rules
      ensures host[..m] + ["*"] in rules ==> known[ks[..m] + ["*"]] == rules[host[..m] + ["*"]]
    {
      PlainStar(host, m);
      SameKey(rules, known, host[..m] + ["*"]);
    }
    BestIsLongest(known, ks, |ks|);
  }

  lemma SameKey(rules: map<seq<string>, Info>, known: map<Path, Info>, labels: seq<string>)
    requires Clean(rules, known) && AllPlain(rules) && Plain(labels)
    ensures Keys(labels) in known <==> labels in rules
    ensures labels in rules ==> known[Keys(labels)] == rules[labels]
  {
    hide Plain, Keys;
    if Keys(labels) in known {
      var r :| r in rules && Keys(r) == Keys(labels);
      KeysInjective(r, labels);
    }
  }

  lemma PlainStar(host: seq<string>, m: nat)
    requires Plain(host) && m <= |host|
    ensures Plain(host[..m] + ["*"]) && Keys(host[..m] + ["*"]) == Keys(host)[..m] + ["*"]
  {
    assert forall k | k in KEYWORDS :: |"__" + k| > 1;
  }
}
