/**
  The tree of loggers in src/logging/logger.cpp: levels that are inherited along the dotted names,
  and the registry that creates loggers and their parents.
 */
module LoggerTree {

  datatype Level = Inherit | Trace | Debug | Info | Warn | Error | Fatal | Off

  class Logger {
    const name: string
    var explicitLevel: Level
    var effectiveLevel: Level
    var parent: Logger?
    var children: seq<Logger>

    constructor (name: string)
      ensures this.name == name && explicitLevel == Inherit && effectiveLevel == Info && parent == null &&
        children == []
    {
      this.name := name;
      explicitLevel, effectiveLevel, parent, children := Inherit, Info, null, [];
    }

    /** Everything below that inherits from here gets the level. */
    method Propagate(level: Level, ghost all: set<Logger>, ghost root: Logger)
      requires Tree(all, root) && this in all
      modifies all`effectiveLevel
      ensures forall m | m in all ::
        m.effectiveLevel == if Inherits(m, this, all, root) then level else old(m.effectiveLevel)
      decreases Below(this, all, root)
    {
      effectiveLevel := level;
      PropagateToChildren(level, all, root);
    }

    method PropagateToChildren(level: Level, ghost all: set<Logger>, ghost root: Logger)
      requires Tree(all, root) && (this in all || children == [])
      modifies all`effectiveLevel
      ensures forall m | m in all ::
        m.effectiveLevel == if m != this && Inherits(m, this, all, root) then level else old(m.effectiveLevel)
      decreases Below(this, all, root), 0
    {
      hide Tree, Inherits, Through, Below, Rank;
      var snapshot := children;
      var i := 0;
      NoneThrough(all, root);
      while i < |snapshot|
        invariant 0 <= i <= |snapshot| && snapshot == children && Tree(all, root)
        invariant forall m | m in all ::
          m.effectiveLevel == if Through(m, snapshot[..i], all, root) then level else old(m.effectiveLevel)
      {
        var child := snapshot[i];
        ChildInTree(this, child, all, root);
        if child.explicitLevel == Inherit {
          BelowShrinks(this, child, all, root);
          child.Propagate(level, all, root);
        }
        forall m | m in all {
          ThroughOneMore(m, snapshot, i, all, root);
        }
        i := i + 1;
      }
      assert snapshot[..i] == children;
      forall m | m in all
        ensures Through(m, children, all, root) <==> m != this && Inherits(m, this, all, root)
      {
        if this in all {
          ThroughChildren(m, this, all, root);
        } else {
          OutsideInheritsNothing(m, this, all, root);
        }
      }
    }

    /** The logger takes the level it should have and hands it down; a new logger is not in the tree yet. */
    method UpdateEffectiveLevel(ghost all: set<Logger>, ghost root: Logger)
      requires Tree(all, root) && (this in all || children == [])
      modifies this`effectiveLevel, all`effectiveLevel
      ensures effectiveLevel == old(Own(this))
      ensures forall m | m in all ::
        m.effectiveLevel == if Inherits(m, this, all, root) then old(Own(this)) else old(m.effectiveLevel)
    {
      assert this in all ==> Inherits(this, this, all, root);
      hide Tree, Inherits, Below, Rank;
      if explicitLevel == Inherit {
        effectiveLevel := if parent != null then parent.effectiveLevel else Info;
      } else {
        effectiveLevel := explicitLevel;
      }
      var effective := effectiveLevel;
      PropagateToChildren(effective, all, root);
    }

    method RegisterChild(child: Logger, ghost all: set<Logger>, ghost root: Logger)
      requires Tree(all, root) && this in all && child !in all && child.children == [] &&
        Rank(this, root) < Rank(child, root)
      modifies child, this`children, all`effectiveLevel
      ensures child.parent == this && child.explicitLevel == old(child.explicitLevel) && child.children == []
      ensures children == old(children) + [child] && Tree(all + {child}, root)
      ensures child.effectiveLevel == if child.explicitLevel == Inherit then effectiveLevel else child.explicitLevel
      ensures forall m | m in all :: m.effectiveLevel == old(m.effectiveLevel)
    {
      hide Inherits, Through, Tree, Rank, Below;
      child.parent := this;
      child.UpdateEffectiveLevel(all, root);
      forall m | m in all ensures !Inherits(m, child, all, root) {
        OutsideInheritsNothing(m, child, all, root);
      }
      PushChild(child, all, root);
    }

    method PushChild(child: Logger, ghost all: set<Logger>, ghost root: Logger)
      requires Tree(all, root) && this in all && child !in all && child.children == [] &&
        Rank(this, root) < Rank(child, root)
      requires child.parent == this
      modifies this`children
      ensures children == old(children) + [child] && Tree(all + {child}, root)
    {
      hide Rank, Tree, Rooted;
      ChildlessRoot(this, child, all, root);
      children := children + [child];
      forall l | l in all + {child} && l != root
        ensures l in l.parent.children
      {
        if l != child {
          assert old(l in l.parent.children);
        }
      }
      forall l, c | l in all + {child} && c in l.children
        ensures c in all + {child} && c.parent == l
      {
        if c != child {
          assert old(c in l.children && l in all);
        }
      }
      IsTree(all + {child}, root);
    }

    /** Sets or, with Inherit, clears the level of a registered logger. */
    method SetLevel(level: Level, ghost registry: Registry)
      requires registry.Valid() && this in registry.loggers.Values
      modifies this`explicitLevel, registry.loggers.Values`effectiveLevel
      ensures explicitLevel == level && registry.Valid()
    {
      SetLevelInTree(level, registry.loggers.Values, registry.root);
    }

    method SetLevelInTree(level: Level, ghost all: set<Logger>, ghost root: Logger)
      requires Tree(all, root) && Consistent(all, root) && this in all
      modifies this`explicitLevel, all`effectiveLevel
      ensures explicitLevel == level && Consistent(all, root)
    {
      hide Inherits, Nearest, Rank;
      ghost var before := Levels(all);
      explicitLevel := level;
      OwnIsNearest(this, before, all, root);
      UpdateEffectiveLevel(all, root);
      forall m | m in all ensures m.effectiveLevel == Nearest(m, Levels(all), all, root) {
        if Inherits(m, this, all, root) {
          NearestInherited(m, this, all, root);
        } else {
          NearestElsewhere(m, this, before, all, root);
        }
      }
    }
  }

  function Own(l: Logger): Level
    reads l, l.parent
  {
    if l.explicitLevel != Inherit then l.explicitLevel
    else if l.parent != null then l.parent.effectiveLevel
    else Info
  }

  function Rank(l: Logger, root: Logger): nat {
    if l == root then 0 else 1 + |l.name|
  }

  /** Parents are nearer to the root, so that every way up ends there. */
  ghost predicate Rooted(all: set<Logger>, root: Logger)
    reads all`parent
  {
    && root in all && root.parent == null
    && (forall l | l in all && l != root :: l.parent != null && l.parent in all && Rank(l.parent, root) < Rank(l, root))
  }

  /** One tree: a logger is among its parent's children, and nowhere else. */
  ghost predicate Tree(all: set<Logger>, root: Logger)
    reads all`parent, all`children
  {
    && Rooted(all, root)
    && (forall l | l in all && l != root :: l in l.parent.children)
    && (forall l, c | l in all && c in l.children :: c in all && c.parent == l)
  }

  ghost function Below(l: Logger, all: set<Logger>, root: Logger): set<Logger> {
    set m | m in all && Rank(m, root) > Rank(l, root)
  }

  lemma BelowShrinks(l: Logger, c: Logger, all: set<Logger>, root: Logger)
    requires Tree(all, root) && l in all && c in l.children
    ensures Below(c, all, root) < Below(l, all, root)
  {
    assert c != root && c.parent == l;
    assert Rank(c, root) > Rank(l, root);
    assert c in Below(l, all, root) && c !in Below(c, all, root);
  }

  /** m takes its level from n: every logger from m up to but not including n inherits. */
  ghost predicate Inherits(m: Logger, n: Logger, all: set<Logger>, root: Logger)
    requires Tree(all, root) && m in all
    reads all`parent, all`children, all`explicitLevel
    decreases Rank(m, root)
  {
    m == n || (m != root && m.explicitLevel == Inherit && Inherits(m.parent, n, all, root))
  }

  ghost predicate Through(m: Logger, children: seq<Logger>, all: set<Logger>, root: Logger)
    requires Tree(all, root) && m in all
    reads all`parent, all`children, all`explicitLevel
  {
    exists c :: c in children && c in all && c.explicitLevel == Inherit && Inherits(m, c, all, root)
  }

  lemma ChildInTree(l: Logger, c: Logger, all: set<Logger>, root: Logger)
    requires Tree(all, root) && l in all && c in l.children
    ensures c in all && c != root && c.parent == l && Rank(l, root) < Rank(c, root)
  {
    hide Rank;
    assert c.parent == l;
  }

  lemma NoneThrough(all: set<Logger>, root: Logger)
    requires Tree(all, root)
    ensures forall m | m in all :: !Through(m, [], all, root)
  {
  }

  lemma ThroughOneMore(m: Logger, children: seq<Logger>, i: nat, all: set<Logger>, root: Logger)
    requires Tree(all, root) && m in all && i < |children| && children[i] in all
    ensures Through(m, children[..i + 1], all, root) <==>
      Through(m, children[..i], all, root) ||
        (children[i].explicitLevel == Inherit && Inherits(m, children[i], all, root))
  {
    assert children[..i + 1] == children[..i] + [children[i]];
  }

  /** What inherits from l inherits from it through one of its children. */
  lemma {:induction false} ThroughChildren(m: Logger, l: Logger, all: set<Logger>, root: Logger)
    requires Tree(all, root) && m in all && l in all
    ensures Through(m, l.children, all, root) <==> m != l && Inherits(m, l, all, root)
    decreases Rank(m, root)
  {
    if m != root && m.explicitLevel == Inherit {
      ThroughChildren(m.parent, l, all, root);
    }
    if c :| c in l.children && c in all && c.explicitLevel == Inherit && Inherits(m, c, all, root) {
      InheritsFurther(m, c, l, all, root);
    }
    if m != l && Inherits(m, l, all, root) {
      if m.parent == l {
        assert m in l.children && Inherits(m, m, all, root);
      } else {
        var c :| c in l.children && c in all && c.explicitLevel == Inherit && Inherits(m.parent, c, all, root);
        assert Inherits(m, c, all, root);
      }
    }
  }

  lemma {:induction false} InheritsFurther(m: Logger, c: Logger, l: Logger, all: set<Logger>, root: Logger)
    requires Tree(all, root) && m in all && l in all && c in l.children && c.explicitLevel == Inherit
    requires Inherits(m, c, all, root)
    ensures m != l && Inherits(m, l, all, root)
    decreases Rank(m, root)
  {
    hide Rank, Tree;
    RootedTree(all, root);
    ChildInTree(l, c, all, root);
    InheritedRank(m, c, all, root);
    if m == c {
      assert Inherits(l, l, all, root);
    } else {
      InheritsFurther(m.parent, c, l, all, root);
    }
  }

  lemma {:induction false} InheritedRank(m: Logger, n: Logger, all: set<Logger>, root: Logger)
    requires Tree(all, root) && m in all && n in all && Inherits(m, n, all, root)
    ensures Rank(n, root) <= Rank(m, root)
    decreases Rank(m, root)
  {
    if m != n {
      InheritedRank(m.parent, n, all, root);
    }
  }

  /** A logger outside the tree hands nothing down to it. */
  lemma {:induction false} OutsideInheritsNothing(m: Logger, n: Logger, all: set<Logger>, root: Logger)
    requires Tree(all, root) && m in all && n !in all
    ensures !Inherits(m, n, all, root)
    decreases Rank(m, root)
  {
    if m != root {
      OutsideInheritsNothing(m.parent, n, all, root);
    }
  }

  // ---- The nearest explicit level -------------------------------------------

  ghost function Levels(all: set<Logger>): (r: map<Logger, Level>)
    reads all`explicitLevel
    ensures r.Keys == all && forall l | l in all :: r[l] == l.explicitLevel
  {
    map l | l in all :: l.explicitLevel
  }

  /** The first explicit level on the way from m to the root, INFO when there is none. */
  ghost function Nearest(m: Logger, levels: map<Logger, Level>, all: set<Logger>, root: Logger): Level
    requires Rooted(all, root) && m in all && levels.Keys == all
    reads all`parent
    decreases Rank(m, root)
  {
    if levels[m] != Inherit then levels[m]
    else if m == root then Info
    else Nearest(m.parent, levels, all, root)
  }

  /** The logger the level comes from: the nearest one with an explicit level, or the root. */
  lemma {:induction false} NearestSource(m: Logger, all: set<Logger>, root: Logger) returns (a: Logger)
    requires Tree(all, root) && m in all
    ensures a in all && Inherits(m, a, all, root) && (a.explicitLevel != Inherit || a == root)
    ensures Nearest(m, Levels(all), all, root) == if a.explicitLevel != Inherit then a.explicitLevel else Info
    decreases Rank(m, root)
  {
    a := m;
    if m.explicitLevel == Inherit && m != root {
      a := NearestSource(m.parent, all, root);
    }
  }

  ghost predicate Consistent(all: set<Logger>, root: Logger)
    requires Rooted(all, root)
    reads all`parent, all`explicitLevel, all`effectiveLevel
  {
    forall m | m in all :: m.effectiveLevel == Nearest(m, Levels(all), all, root)
  }

  lemma {:induction false} NearestInherited(m: Logger, n: Logger, all: set<Logger>, root: Logger)
    requires Tree(all, root) && m in all && n in all && Inherits(m, n, all, root)
    ensures Nearest(m, Levels(all), all, root) == Nearest(n, Levels(all), all, root)
    decreases Rank(m, root)
  {
    if m != n {
      NearestInherited(m.parent, n, all, root);
    }
  }

  /** A change of one explicit level is not felt by loggers that do not inherit from it. */
  lemma {:induction false} NearestElsewhere(m: Logger, n: Logger, before: map<Logger, Level>, all: set<Logger>,
                                            root: Logger)
    requires Tree(all, root) && m in all && n in all && before.Keys == all
    requires forall l | l in all && l != n :: l.explicitLevel == before[l]
    requires !Inherits(m, n, all, root)
    ensures Nearest(m, Levels(all), all, root) == Nearest(m, before, all, root)
    decreases Rank(m, root)
  {
    if m != root && m.explicitLevel == Inherit {
      NearestElsewhere(m.parent, n, before, all, root);
    }
  }

  /** After the change the logger's own level is the nearest one, the parent's being right already. */
  lemma OwnIsNearest(n: Logger, before: map<Logger, Level>, all: set<Logger>, root: Logger)
    requires Tree(all, root) && n in all && before.Keys == all
    requires forall l | l in all && l != n :: l.explicitLevel == before[l]
    requires forall l | l in all :: l.effectiveLevel == Nearest(l, before, all, root)
    ensures Own(n) == Nearest(n, Levels(all), all, root)
  {
    if n.explicitLevel == Inherit && n != root {
      if Inherits(n.parent, n, all, root) {
        InheritedRank(n.parent, n, all, root);
      }
      NearestElsewhere(n.parent, n, before, all, root);
    }
  }

  // ---- The registry ----------------------------------------------------------

  /** The index of the last dot, or -1. */
  function LastDot(name: string): (i: int)
    ensures -1 <= i < |name|
    ensures i >= 0 ==> name[i] == '.'
    ensures forall k | i < k < |name| :: name[k] != '.'
  {
    if name == "" then -1
    else if name[|name| - 1] == '.' then |name| - 1
    else LastDot(name[..|name| - 1])
  }

  const ROOT := "root"

  /** The name of the parent of a logger other than the root. */
  function ParentName(name: string): string {
    var dot := LastDot(name);
    if dot > 0 then name[..dot] else ROOT
  }

  /** k is name or one of the names above it that asking for name creates. */
  predicate OnTheWay(k: string, name: string)
    decreases |name|
  {
    k == name || (LastDot(name) > 0 && OnTheWay(k, name[..LastDot(name)]))
  }

  lemma {:induction false} LastDotIs(name: string)
    ensures
      var k := LastDot(name);
      && -1 <= k < |name| && (k >= 0 ==> name[k] == '.') && forall i | k < i < |name| :: name[i] != '.'
  {
    if name != "" && name[|name| - 1] != '.' {
      LastDotIs(name[..|name| - 1]);
    }
  }

  lemma {:induction false} LastDotOf(front: string, last: string)
    requires forall i | 0 <= i < |last| :: last[i] != '.'
    ensures LastDot(front + "." + last) == |front|
    decreases |last|
  {
    var name := front + "." + last;
    if last != "" {
      var n := |last| - 1;
      assert name[|name| - 1] == last[n];
      assert name[..|name| - 1] == front + "." + last[..n];
      LastDotOf(front, last[..n]);
    }
  }

  /** A dotted name is below what comes before its last component, a name without a dot below the root. */
  lemma ParentNameIs(front: string, last: string)
    requires forall i | 0 <= i < |last| :: last[i] != '.'
    ensures ParentName(front + "." + last) == if front == "" then "root" else front
    ensures ParentName(last) == "root"
  {
    hide LastDot;
    LastDotOf(front, last);
    LastDotIs(last);
    assert (front + "." + last)[..|front|] == front;
  }

  /** A name that ends in a dot is a prefix of the name just where the name has that dot. */
  lemma DotAfter(k: string, name: string)
    ensures k + "." <= name <==> |k| < |name| && name[|k|] == '.' && k == name[..|k|]
  {
    if |k| < |name| && name[|k|] == '.' && k == name[..|k|] {
      assert name[..|k| + 1] == k + ".";
    }
    if k + "." <= name {
      assert name[..|k| + 1] == k + "." && name[|k|] == (k + ".")[|k|];
    }
  }

  /** The names on the way are the name itself and what stands before one of its dots, if not nothing. */
  lemma {:induction false} OnTheWayIs(k: string, name: string)
    ensures OnTheWay(k, name) <==> k == name || (k != "" && k + "." <= name)
    decreases |name|
  {
    hide LastDot;
    LastDotIs(name);
    var dot := LastDot(name);
    DotAfter(k, name);
    if dot > 0 {
      var front := name[..dot];
      OnTheWayIs(k, front);
      DotAfter(k, front);
      assert |k| < dot ==> front[|k|] == name[|k|] && front[..|k|] == name[..|k|];
    }
  }

  lemma ParentIsNearer(p: Logger, l: Logger, root: Logger)
    requires p.name == ParentName(l.name) && (p.name == ROOT ==> p == root) && l != root
    ensures Rank(p, root) < Rank(l, root)
  {
  }

  lemma RootedTree(all: set<Logger>, root: Logger)
    requires Tree(all, root)
    ensures Rooted(all, root)
  {
  }

  lemma ValuesGrow(m: map<string, Logger>, k: string, v: Logger)
    requires k !in m
    ensures m[k := v].Values == m.Values + {v}
  {
    var r := m[k := v];
    assert r[k] == v;
    assert forall j | j in m :: r[j] == m[j];
  }

  lemma OnTheWayUp(name: string)
    ensures OnTheWay(name, name)
    ensures LastDot(name) > 0 ==> forall k | OnTheWay(k, name[..LastDot(name)]) :: OnTheWay(k, name)
  {
  }

  lemma IsTree(all: set<Logger>, root: Logger)
    requires Rooted(all, root)
    requires forall l | l in all && l != root :: l in l.parent.children
    requires forall l, c | l in all && c in l.children :: c in all && c.parent == l
    ensures Tree(all, root)
  {
  }

  lemma ChildlessRoot(p: Logger, c: Logger, all: set<Logger>, root: Logger)
    requires Tree(all, root) && p in all && c !in all && c.parent == p && Rank(p, root) < Rank(c, root)
    ensures Rooted(all, root) && Rooted(all + {c}, root) && c != root
    ensures forall l | l in all && l != root :: l.parent != null && l.parent in all
    ensures forall l | l in all :: c !in l.children
    ensures forall l | l in all && l != root :: l in l.parent.children
    ensures forall l, k | l in all && k in l.children :: k in all && k.parent == l
  {
    hide Rank;
  }

  /** A new logger that inherits from its parent. */
  lemma ConsistentGrows(c: Logger, all: set<Logger>, root: Logger)
    requires Rooted(all, root) && Tree(all + {c}, root) && c !in all && c.parent in all
    requires Consistent(all, root) && c.explicitLevel == Inherit && c.effectiveLevel == c.parent.effectiveLevel
    ensures Consistent(all + {c}, root)
  {
    forall m | m in all {
      NearestGrows(m, c, all, root);
    }
  }

  lemma {:induction false} NearestGrows(m: Logger, c: Logger, all: set<Logger>, root: Logger)
    requires Rooted(all, root) && Rooted(all + {c}, root) && m in all && c !in all
    ensures Nearest(m, Levels(all + {c}), all + {c}, root) == Nearest(m, Levels(all), all, root)
    decreases Rank(m, root)
  {
    if m.explicitLevel == Inherit && m != root {
      NearestGrows(m.parent, c, all, root);
    }
  }

  class Registry {
    var root: Logger
    var loggers: map<string, Logger>

    ghost predicate Valid()
      reads this, loggers.Values
    {
      && ROOT in loggers && loggers[ROOT] == root
      && (forall k | k in loggers :: loggers[k].name == k)
      && Tree(loggers.Values, root)
      && Consistent(loggers.Values, root)
      && (forall k | k in loggers && k != ROOT :: loggers[k].parent.name == ParentName(k))
    }

    constructor ()
      ensures Valid() && loggers.Keys == {ROOT} && fresh(root)
    {
      var r := new Logger(ROOT);
      root := r;
      loggers := map[ROOT := r];
    }

    /** Registers a new logger under its parent. */
    method Attach(parentLogger: Logger, l: Logger)
      requires Valid() && l.name !in loggers && l.name != "" && l !in loggers.Values
      requires l.children == [] && l.explicitLevel == Inherit
      requires ParentName(l.name) in loggers && parentLogger == loggers[ParentName(l.name)]
      modifies this`loggers, l, parentLogger`children, loggers.Values`effectiveLevel
      ensures Valid() && loggers == old(loggers)[l.name := l] && root == old(root)
      ensures l.explicitLevel == Inherit && l.parent == parentLogger
      ensures forall k | k in old(loggers) :: loggers[k].effectiveLevel == old(loggers[k].effectiveLevel)
    {
      hide Tree, Rooted, Consistent, ParentName, Rank;
      ghost var all := loggers.Values;
      assert l != root && (parentLogger.name == ROOT ==> parentLogger == root);
      ParentIsNearer(parentLogger, l, root);
      RootedTree(all, root);
      parentLogger.RegisterChild(l, all, root);
      loggers := loggers[l.name := l];
      ValuesGrow(old(loggers), l.name, l);
      ConsistentGrows(l, all, root);
    }

    /** Finds the logger of that name, or creates it under its parent, which is found or created first. */
    method CreateLogger(name: string) returns (l: Logger)
      requires Valid() && name != ""
      modifies this`loggers, loggers.Values`children, loggers.Values`effectiveLevel
      ensures Valid() && root == old(root) && name in loggers && l == loggers[name]
      ensures forall k | k in old(loggers) ::
        k in loggers && loggers[k] == old(loggers[k]) && loggers[k].effectiveLevel == old(loggers[k].effectiveLevel)
      ensures forall k | k in loggers && k !in old(loggers) ::
        OnTheWay(k, name) && fresh(loggers[k]) && loggers[k].explicitLevel == Inherit
      decreases |name|
    {
      hide Tree, Rooted, Nearest, Consistent, OnTheWay, LastDot;
      if name in loggers {
        return loggers[name];
      }
      l := new Logger(name);
      var parentLogger := root;
      var dot := LastDot(name);
      OnTheWayUp(name);
      if dot > 0 {
        parentLogger := CreateLogger(name[..dot]);
        if OnTheWay(name, name[..dot]) {
          OnTheWayIsShorter(name, name[..dot]);
        }
      }
      Attach(parentLogger, l);
    }

    /** The empty name and "root" mean the root. */
    method GetLogger(name: string) returns (l: Logger)
      requires Valid()
      modifies this`loggers, loggers.Values`children, loggers.Values`effectiveLevel
      ensures Valid() && root == old(root)
      ensures if name == "" then l == root && loggers == old(loggers) else name in loggers && l == loggers[name]
      ensures forall k | k in old(loggers) ::
        k in loggers && loggers[k] == old(loggers[k]) && loggers[k].effectiveLevel == old(loggers[k].effectiveLevel)
      ensures forall k | k in loggers && k !in old(loggers) ::
        OnTheWay(k, name) && fresh(loggers[k]) && loggers[k].explicitLevel == Inherit
    {
      if name == "" || name == ROOT {
        return root;
      }
      l := CreateLogger(name);
    }
  }

  lemma {:induction false} OnTheWayIsShorter(k: string, name: string)
    requires OnTheWay(k, name)
    ensures |k| <= |name|
    decreases |name|
  {
    if k != name {
      OnTheWayIsShorter(k, name[..LastDot(name)]);
    }
  }
}
