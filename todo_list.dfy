/**
 * The list's tag vocabulary: the names of all tags of all todos, each once,
 * in the order of JavaScript's default `sort`, which compares strings by
 * their UTF-16 code units.
 */
module TodoList {
  import opened Types
  import opened Seqs

  // ---- the order of `Array.prototype.sort` on strings ----

  /**
   * A key whose order on characters is the order of their UTF-16 encodings:
   * characters below U+D800 are one unit of their own value, characters
   * above U+FFFF begin with a lead surrogate (U+D800..U+DBFF) and so sort
   * below U+E000..U+FFFF.
   */
  function UnitKey(c: char): (k: int)
    ensures 0 <= k
  {
    var v := c as int;
    if v < 0xD800 then v
    else if v >= 0x1_0000 then 0xD800 + (v - 0x1_0000)
    else v + 0x10_0000
  }

  lemma UnitKeyInjective(c: char, d: char)
    requires UnitKey(c) == UnitKey(d)
    ensures c == d
  {
  }

  /** `a` sorts strictly before `b` when compared unit by unit. */
  predicate Below(a: string, b: string)
    decreases |a|
  {
    if a == [] then b != []
    else if b == [] then false
    else UnitKey(a[0]) < UnitKey(b[0]) || (a[0] == b[0] && Below(a[1..], b[1..]))
  }

  lemma {:induction false} BelowIrreflexive(a: string)
    ensures !Below(a, a)
    decreases |a|
  {
    if a != [] {
      BelowIrreflexive(a[1..]);
    }
  }

  lemma {:induction false} BelowTransitive(a: string, b: string, c: string)
    requires Below(a, b) && Below(b, c)
    ensures Below(a, c)
    decreases |a|
  {
    if a != [] && a[0] == b[0] && b[0] == c[0] {
      BelowTransitive(a[1..], b[1..], c[1..]);
    }
  }

  lemma {:induction false} BelowTotal(a: string, b: string)
    requires a != b
    ensures Below(a, b) || Below(b, a)
    decreases |a|
  {
    if a != [] && b != [] {
      if a[0] == b[0] {
        assert a == [a[0]] + a[1..] && b == [b[0]] + b[1..];
        BelowTotal(a[1..], b[1..]);
      } else if UnitKey(a[0]) == UnitKey(b[0]) {
        UnitKeyInjective(a[0], b[0]);
      }
    }
  }

  lemma BelowAsymmetric(a: string, b: string)
    requires Below(a, b)
    ensures !Below(b, a)
  {
    if Below(b, a) {
      BelowTransitive(a, b, a);
      BelowIrreflexive(a);
    }
  }

  /** Every earlier entry sorts strictly before every later one. */
  predicate StrictlySorted(s: seq<string>) {
    forall i, j :: 0 <= i < j < |s| ==> Below(s[i], s[j])
  }

  /** Insert a name into a strictly sorted list that lacks it. */
  function Insert(s: seq<string>, x: string): (r: seq<string>)
    requires StrictlySorted(s) && x !in s
    ensures StrictlySorted(r)
    ensures forall y :: y in r <==> y in s || y == x
  {
    if s == [] then [x]
    else if Below(x, s[0]) then
      assert forall j :: 0 < j < |s| ==> Below(x, s[j]) by {
        forall j | 0 < j < |s| ensures Below(x, s[j]) {
          BelowTransitive(x, s[0], s[j]);
        }
      }
      [x] + s
    else
      BelowTotal(x, s[0]);
      var rest := Insert(s[1..], x);
      assert forall y :: y in rest ==> Below(s[0], y);
      [s[0]] + rest
  }

  /** `list.sort()` for a list without repeats. */
  function Sort(s: seq<string>): (r: seq<string>)
    requires NoDup(s)
    ensures StrictlySorted(r)
    ensures forall y :: y in r <==> y in s
  {
    if s == [] then []
    else
      assert NoDup(s[..|s| - 1]);
      assert s == s[..|s| - 1] + [s[|s| - 1]];
      Insert(Sort(s[..|s| - 1]), s[|s| - 1])
  }

  /** Two strictly sorted lists with the same entries are the same list. */
  lemma {:induction false} SortedUnique(r: seq<string>, q: seq<string>)
    requires StrictlySorted(r) && StrictlySorted(q)
    requires forall y :: y in r <==> y in q
    ensures r == q
    decreases |r|
  {
    if r != [] && q != [] {
      assert r[0] in q && q[0] in r;
      if r[0] != q[0] {
        var i :| 0 <= i < |q| && q[i] == r[0];
        var j :| 0 <= j < |r| && r[j] == q[0];
        assert Below(q[0], r[0]);
        BelowAsymmetric(q[0], r[0]);
        assert false;
      }
      forall y ensures y in r[1..] <==> y in q[1..] {
        BelowIrreflexive(r[0]);
        assert y in r <==> y == r[0] || y in r[1..];
        assert y in q <==> y == q[0] || y in q[1..];
        assert y in r[1..] ==> Below(r[0], y);
        assert y in q[1..] ==> Below(q[0], y);
      }
      SortedUnique(r[1..], q[1..]);
      assert r == [r[0]] + r[1..] && q == [q[0]] + q[1..];
    } else {
      if r != [] {
        FirstIn(r);
      }
      if q != [] {
        FirstIn(q);
      }
    }
  }

  lemma FirstIn(s: seq<string>)
    requires s != []
    ensures s[0] in s
  {
  }

  lemma SortedNoDup(s: seq<string>)
    requires StrictlySorted(s)
    ensures NoDup(s)
  {
    forall i, j | 0 <= i < j < |s| ensures s[i] != s[j] {
      BelowIrreflexive(s[i]);
    }
  }

  // ---- the vocabulary ----

  /** Some todo with tags has a tag named `name`. */
  predicate Named(todos: seq<Todo>, name: string) {
    exists i, j :: 0 <= i < |todos| && todos[i].tags.Some? && 0 <= j < |todos[i].tags.value|
      && todos[i].tags.value[j].name == name
  }

  /**
   * The effect that computes `availableTags`: every tag name of every todo
   * (todos without `tags` contribute nothing) collected into a set, then
   * sorted.
   */
  method AvailableTags(todos: seq<Todo>) returns (names: seq<string>)
    ensures StrictlySorted(names) && NoDup(names)
    ensures forall name :: name in names <==> Named(todos, name)
  {
    var tagSet: seq<string> := [];
    var i := 0;
    while i < |todos|
      invariant 0 <= i <= |todos|
      invariant NoDup(tagSet)
      invariant forall name :: name in tagSet <==> Named(todos[..i], name)
    {
      if todos[i].tags.Some? {
        var tags := todos[i].tags.value;
        var j := 0;
        while j < |tags|
          invariant 0 <= j <= |tags|
          invariant NoDup(tagSet)
          invariant forall name :: name in tagSet <==>
            Named(todos[..i], name) || exists k :: 0 <= k < j && tags[k].name == name
        {
          if tags[j].name !in tagSet {
            tagSet := tagSet + [tags[j].name];
          }
          j := j + 1;
        }
        forall name ensures Named(todos[..i + 1], name) <==>
          Named(todos[..i], name) || exists k :: 0 <= k < |tags| && tags[k].name == name
        {
          NamedStep(todos, i, name);
        }
      } else {
        forall name ensures Named(todos[..i + 1], name) <==> Named(todos[..i], name) {
          NamedStep(todos, i, name);
        }
      }
      i := i + 1;
    }
    assert todos[..i] == todos;
    names := Sort(tagSet);
    SortedNoDup(names);
  }

  /** Extending the prefix by one todo adds that todo's tag names. */
  lemma NamedStep(todos: seq<Todo>, i: nat, name: string)
    requires i < |todos|
    ensures Named(todos[..i + 1], name) <==>
      Named(todos[..i], name) ||
      (todos[i].tags.Some? && exists k :: 0 <= k < |todos[i].tags.value| && todos[i].tags.value[k].name == name)
  {
    var p, q := todos[..i + 1], todos[..i];
    if Named(p, name) {
      var a, b :| 0 <= a < |p| && p[a].tags.Some? && 0 <= b < |p[a].tags.value| && p[a].tags.value[b].name == name;
      if a < i {
        assert q[a] == p[a];
      }
    }
    if Named(q, name) {
      var a, b :| 0 <= a < |q| && q[a].tags.Some? && 0 <= b < |q[a].tags.value| && q[a].tags.value[b].name == name;
      assert p[a] == q[a];
    }
    if todos[i].tags.Some? && exists k :: 0 <= k < |todos[i].tags.value| && todos[i].tags.value[k].name == name {
      var k :| 0 <= k < |todos[i].tags.value| && todos[i].tags.value[k].name == name;
      assert p[i] == todos[i];
    }
  }

  /** The vocabulary is determined by the todos: it is the one sorted list of their tag names. */
  lemma VocabularyUnique(todos: seq<Todo>, names: seq<string>, other: seq<string>)
    requires StrictlySorted(names) && forall name :: name in names <==> Named(todos, name)
    requires StrictlySorted(other) && forall name :: name in other <==> Named(todos, name)
    ensures names == other
  {
    SortedUnique(names, other);
  }
}
