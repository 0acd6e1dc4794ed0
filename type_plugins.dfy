/**
 * The descriptors GView keeps for its file-type plugins: the fixed-capacity
 * byte patterns a plugin is recognised by, and the plugin record whose
 * priority orders the list of type plugins, highest priority first.
 *
 * Both are values here.  The members that fill them in or update them
 * (SimplePattern::Init, Plugin::Init, Plugin::Validate, LoadPlugin) have no
 * body in the headers this models.
 */
module GViewType {

  type uint8 = x: int | 0 <= x < 0x100
  type uint16 = x: int | 0 <= x < 0x1_0000
  type uint64 = x: int | 0 <= x < 0x1_0000_0000_0000_0000

  /** Capacity of a pattern; the count of used positions is an unsigned char. */
  const MAX_PATTERN_VALUES: nat := 21
  /** Capacity of a plugin name; its length is an unsigned char. */
  const PLUGIN_NAME_MAX_SIZE: nat := 31

  // ---------------------------------------------------------------------------
  // SimplePattern (GViewApp.hpp lines 24-39)

  /**
   * Up to MAX_PATTERN_VALUES bytes to look for at a fixed offset of a
   * buffer.  charactersToMatch is the whole fixed-size array; only its
   * first count entries are in use.
   */
  datatype SimplePattern = SimplePattern(charactersToMatch: seq<uint8>, count: uint8, offset: uint16) {

    /** The array has its declared size and the count stays within it. */
    predicate Valid() {
      |charactersToMatch| == MAX_PATTERN_VALUES && count <= MAX_PATTERN_VALUES
    }

    /** SimplePattern::Empty */
    predicate Empty() {
      count == 0
    }

    /** The bytes in use; that count stays within the array is the invariant Valid assumes. */
    function Characters(): (c: seq<uint8>)
      requires Valid()
      ensures |c| == count <= MAX_PATTERN_VALUES
    {
      charactersToMatch[..count]
    }
  }

  /** A pattern is empty exactly when it has no byte to match. */
  lemma EmptyIffNoCharacters(p: SimplePattern)
    requires p.Valid()
    ensures p.Empty() <==> p.Characters() == []
  {
  }

  // ---------------------------------------------------------------------------
  // Plugin (GViewApp.hpp lines 40-71)

  /**
   * A file-type plugin as the application lists it.  The function pointers
   * into the loaded library are not part of this model.
   */
  datatype Plugin = Plugin(
    pattern: SimplePattern,
    patterns: seq<SimplePattern>,
    extension: uint64,
    extensions: set<uint64>,
    name: seq<uint8>,
    nameLength: uint8,
    priority: uint16,
    loaded: bool,
    invalid: bool)
  {
    /** Patterns are well formed, the name array has its declared size and the length stays within it. */
    predicate Valid() {
      pattern.Valid() && (forall p :: p in patterns ==> p.Valid()) &&
      |name| == PLUGIN_NAME_MAX_SIZE && nameLength <= PLUGIN_NAME_MAX_SIZE
    }

    /** The bytes of the name in use; that the length stays within the array is the invariant Valid assumes. */
    function Name(): (n: seq<uint8>)
      requires Valid()
      ensures |n| == nameLength <= PLUGIN_NAME_MAX_SIZE
    {
      name[..nameLength]
    }
  }

  /** Plugin::operator<: a plugin orders before another when its priority is higher. */
  predicate Less(a: Plugin, b: Plugin) {
    a.priority > b.priority
  }

  /** Less is a strict weak order: irreflexive, asymmetric and transitive, and two plugins are incomparable exactly when their priorities are equal. */
  lemma LessIsStrictWeakOrder(a: Plugin, b: Plugin, c: Plugin)
    ensures !Less(a, a)
    ensures Less(a, b) ==> !Less(b, a)
    ensures Less(a, b) && Less(b, c) ==> Less(a, c)
    ensures !Less(a, b) && !Less(b, a) <==> a.priority == b.priority
    ensures (!Less(a, b) && !Less(b, a)) && (!Less(b, c) && !Less(c, b)) ==> !Less(a, c) && !Less(c, a)
  {
  }

  // ---------------------------------------------------------------------------
  // The list of type plugins (GViewApp.hpp line 179)

  /** The order any sort by Less leaves: no plugin is Less than one before it. */
  predicate SortedByLess(ps: seq<Plugin>) {
    forall i, j :: 0 <= i < j < |ps| ==> !Less(ps[j], ps[i])
  }

  /** Sortedness by Less seen on neighbours only: each neighbouring pair is in order. */
  predicate NeighboursInOrder(ps: seq<Plugin>) {
    forall i :: 0 <= i < |ps| - 1 ==> !Less(ps[i + 1], ps[i])
  }

  function Priorities(ps: seq<Plugin>): (r: seq<int>)
    ensures |r| == |ps| && forall i :: 0 <= i < |ps| ==> r[i] == ps[i].priority
  {
    if ps == [] then [] else Priorities(ps[..|ps| - 1]) + [ps[|ps| - 1].priority]
  }

  predicate NonIncreasing(s: seq<int>) {
    forall i, j :: 0 <= i < j < |s| ==> s[i] >= s[j]
  }

  /** A list sorted with Less has non-increasing priorities, and conversely. */
  lemma SortedMeansNonIncreasing(ps: seq<Plugin>)
    ensures SortedByLess(ps) <==> NonIncreasing(Priorities(ps))
  {
  }

  /** Checking neighbours suffices, because Less and its complement are transitive. */
  lemma {:induction false} NeighboursSuffice(ps: seq<Plugin>)
    ensures NeighboursInOrder(ps) <==> SortedByLess(ps)
  {
    if NeighboursInOrder(ps) && |ps| > 1 {
      var front := ps[..|ps| - 1];
      assert NeighboursInOrder(front) by {
        forall i | 0 <= i < |front| - 1
          ensures !Less(front[i + 1], front[i])
        {
          assert front[i + 1] == ps[i + 1] && front[i] == ps[i];
        }
      }
      NeighboursSuffice(front);
      forall i, j | 0 <= i < j < |ps|
        ensures !Less(ps[j], ps[i])
      {
        if j < |ps| - 1 {
          assert ps[j] == front[j] && ps[i] == front[i];
        } else if i < j - 1 {
          assert !Less(front[j - 1], front[i]);
          assert !Less(ps[j], ps[j - 1]);
        }
      }
    }
  }

  /** The first plugin of a sorted list has the highest priority of all. */
  lemma FirstHasHighestPriority(ps: seq<Plugin>)
    requires SortedByLess(ps) && |ps| > 0
    ensures forall p :: p in ps ==> p.priority <= ps[0].priority
  {
    forall p | p in ps
      ensures p.priority <= ps[0].priority
    {
      var k :| 0 <= k < |ps| && ps[k] == p;
      if k > 0 {
        assert !Less(ps[k], ps[0]);
      }
    }
  }

  /** Reordering plugins reorders their priorities the same way. */
  lemma {:induction false} PrioritiesOfPermutation(a: seq<Plugin>, b: seq<Plugin>)
    requires multiset(a) == multiset(b)
    ensures multiset(Priorities(a)) == multiset(Priorities(b))
    decreases |a|
  {
    if a != [] {
      var k := MatchLast(a, b);
      var rest := b[..k] + b[k + 1..];
      PrioritiesOfPermutation(a[..|a| - 1], rest);
      PrioritiesWithout(a, |a| - 1);
      PrioritiesWithout(b, k);
      assert a[..|a| - 1] + a[|a|..] == a[..|a| - 1];
    }
  }

  /** The last plugin of a also sits at some position k of its permutation b, and the rest are permutations of each other. */
  lemma MatchLast(a: seq<Plugin>, b: seq<Plugin>) returns (k: nat)
    requires multiset(a) == multiset(b) && a != []
    ensures k < |b| && b[k] == a[|a| - 1]
    ensures multiset(a[..|a| - 1]) == multiset(b[..k] + b[k + 1..])
  {
    var x := a[|a| - 1];
    assert a == a[..|a| - 1] + [x];
    assert x in multiset(b);
    k :| 0 <= k < |b| && b[k] == x;
    SplitAt(b, k);
    assert multiset(a[..|a| - 1]) == multiset(a) - multiset{x};
    assert multiset(b[..k] + b[k + 1..]) == multiset(b) - multiset{x};
  }

  /** Taking the plugin at k out takes its priority out. */
  lemma PrioritiesWithout(b: seq<Plugin>, k: nat)
    requires k < |b|
    ensures multiset(Priorities(b)) == multiset(Priorities(b[..k] + b[k + 1..])) + multiset{b[k].priority as int}
  {
    SplitAt(b, k);
    PrioritiesOfThree(b[..k], b[k], b[k + 1..]);
  }

  lemma SplitAt(b: seq<Plugin>, k: nat)
    requires k < |b|
    ensures b == b[..k] + [b[k]] + b[k + 1..]
  {
    assert b[k..] == [b[k]] + b[k + 1..];
    assert b == b[..k] + b[k..];
  }

  lemma PrioritiesOfThree(left: seq<Plugin>, x: Plugin, right: seq<Plugin>)
    ensures multiset(Priorities(left + [x] + right)) == multiset(Priorities(left + right)) + multiset{x.priority as int}
  {
    var pl, px, pr := Priorities(left), [x.priority as int], Priorities(right);
    assert (left + [x])[..|left|] == left;
    assert Priorities(left + [x]) == pl + px;
    PrioritiesOfConcat(left + [x], right);
    PrioritiesOfConcat(left, right);
    MultisetOfThree(pl, px, pr);
  }

  lemma MultisetOfThree(l: seq<int>, m: seq<int>, r: seq<int>)
    ensures multiset(l + m + r) == multiset(l) + multiset(m) + multiset(r)
    ensures multiset(l + r) == multiset(l) + multiset(r)
  {
  }

  lemma {:induction false} PrioritiesOfConcat(a: seq<Plugin>, b: seq<Plugin>)
    ensures Priorities(a + b) == Priorities(a) + Priorities(b)
  {
    assert Priorities(a + b) == Priorities(a) + Priorities(b) by {
      var l, r := Priorities(a + b), Priorities(a) + Priorities(b);
      assert |l| == |r|;
      forall i | 0 <= i < |l|
        ensures l[i] == r[i]
      {
        if i < |a| {
          assert (a + b)[i] == a[i];
        } else {
          assert (a + b)[i] == b[i - |a|];
        }
      }
    }
  }

  /** Two non-increasing sequences holding the same values are equal. */
  lemma {:induction false} NonIncreasingUnique(s: seq<int>, t: seq<int>)
    requires NonIncreasing(s) && NonIncreasing(t) && multiset(s) == multiset(t)
    ensures s == t
    decreases |s|
  {
    assert |s| == |t| by {
      assert |multiset(s)| == |s| && |multiset(t)| == |t|;
    }
    if s != [] {
      HeadIsMaximum(s, t[0]);
      HeadIsMaximum(t, s[0]);
      assert s[0] == t[0];
      assert s == [s[0]] + s[1..] && t == [t[0]] + t[1..];
      assert multiset(s[1..]) == multiset(s) - multiset{s[0]};
      assert multiset(t[1..]) == multiset(t) - multiset{t[0]};
      TailNonIncreasing(s);
      TailNonIncreasing(t);
      NonIncreasingUnique(s[1..], t[1..]);
    }
  }

  lemma TailNonIncreasing(s: seq<int>)
    requires NonIncreasing(s) && s != []
    ensures NonIncreasing(s[1..])
  {
    forall i, j | 0 <= i < j < |s| - 1
      ensures s[1..][i] >= s[1..][j]
    {
      assert s[1..][i] == s[i + 1] && s[1..][j] == s[j + 1];
    }
  }

  /** The head of a non-increasing sequence is at least each of its values. */
  lemma HeadIsMaximum(s: seq<int>, v: int)
    requires NonIncreasing(s) && v in multiset(s)
    ensures v <= s[0]
  {
    assert v in s;
    var j :| 0 <= j < |s| && s[j] == v;
    if j > 0 {
      assert s[0] >= s[j];
    }
  }

  /**
   * A sort by Less need not be stable, but every order it can leave for the
   * same plugins has the same priority at each position: plugins may only trade
   * places with plugins of equal priority.
   */
  lemma SortedOrdersAgreeOnPriorities(a: seq<Plugin>, b: seq<Plugin>)
    requires multiset(a) == multiset(b)
    requires SortedByLess(a) && SortedByLess(b)
    ensures Priorities(a) == Priorities(b)
  {
    SortedMeansNonIncreasing(a);
    SortedMeansNonIncreasing(b);
    PrioritiesOfPermutation(a, b);
    NonIncreasingUnique(Priorities(a), Priorities(b));
  }
}
