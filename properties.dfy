/** Properties of the task operations that relate several calls: what the list
    shows and in which order, what a later get sees after each mutation, and
    the id invariant that the seed establishes and every operation keeps. */
module TaskProperties {
  import opened Tasks

  // ---------------------------------------------------------------------------
  // Listing
  // ---------------------------------------------------------------------------

  /** A record is listed exactly when it is stored and not soft-deleted. */
  lemma {:induction false} ListedIff(s: seq<Task>, t: Task)
    ensures t in ShowAllTasks(s) <==> t in s && !t.isDeleted
  {
    if s != [] {
      ListedIff(s[1..], t);
      assert s == [s[0]] + s[1..];
    }
  }

  /** Listing distributes over concatenation, so it keeps the stored order. */
  lemma {:induction false} ListedConcat(a: seq<Task>, b: seq<Task>)
    ensures ShowAllTasks(a + b) == ShowAllTasks(a) + ShowAllTasks(b)
  {
    if a == [] {
      assert a + b == b;
    } else {
      assert (a + b)[1..] == a[1..] + b;
      ListedConcat(a[1..], b);
    }
  }

  /** A visible record at position i of the store appears in the list right
      after the visible records stored before it. */
  lemma ListedAt(s: seq<Task>, i: int)
    requires 0 <= i < |s| && !s[i].isDeleted
    ensures |ShowAllTasks(s[..i])| < |ShowAllTasks(s)|
    ensures ShowAllTasks(s)[|ShowAllTasks(s[..i])|] == s[i]
  {
    assert s == s[..i] + ([s[i]] + s[i + 1..]);
    ListedConcat(s[..i], [s[i]] + s[i + 1..]);
    ListedConcat([s[i]], s[i + 1..]);
    assert ShowAllTasks([s[i]]) == [s[i]];
  }

  // ---------------------------------------------------------------------------
  // The seed
  // ---------------------------------------------------------------------------

  /** The seed ids are positive and distinct. */
  lemma SeedIdsValid()
    ensures IdsValid(Seed())
  {
  }

  /** On the seed, the list shows ids 1, 2 and 3 in order, and the
      pre-deleted record 4 is hidden from get. */
  lemma SeedQueries()
    ensures ShowAllTasks(Seed()) == Seed()[..3]
    ensures ShowTask(Seed(), 4) == NotFound
    ensures ShowTask(Seed(), 1) == Ok(Seed()[0])
  {
    var s := Seed();
    assert ShowAllTasks(s[3..]) == [];
    assert IsFirstMatch(s, 4, 3);
    assert IsFirstMatch(s, 1, 0);
  }

  // ---------------------------------------------------------------------------
  // A helper: changing fields other than the id does not move any match
  // ---------------------------------------------------------------------------

  lemma SameIdsSameMatches(s: seq<Task>, r: seq<Task>, id: int)
    requires |r| == |s| && forall j :: 0 <= j < |s| ==> r[j].id == s[j].id
    ensures Absent(r, id) <==> Absent(s, id)
    ensures forall k :: IsFirstMatch(r, id, k) <==> IsFirstMatch(s, id, k)
    ensures IdsValid(r) <==> IdsValid(s)
  {
  }

  // ---------------------------------------------------------------------------
  // Create
  // ---------------------------------------------------------------------------

  /** On a store whose ids are valid, create's guard accepts exactly the
      payloads whose append keeps the ids valid. */
  lemma CreateGuardIsInvariant(s: seq<Task>, t: Task)
    requires IdsValid(s)
    ensures CreateOutcome(s, t).Ok? <==> IdsValid(s + [t])
    ensures IdsValid(AfterCreate(s, t))
  {
    var r := s + [t];
    if IdsValid(r) {
      forall j | 0 <= j < |s| ensures s[j].id != t.id {
        assert r[j] == s[j] && r[|s|] == t;
      }
      assert r[|s|] == t;
    }
  }

  /** After an accepted create, get on the new id answers the new record
      (unless the payload itself came marked deleted) and every other id
      answers as before. */
  lemma CreateThenShow(s: seq<Task>, t: Task, id: int)
    requires CreateOutcome(s, t).Ok?
    ensures ShowTask(AfterCreate(s, t), t.id) == if t.isDeleted then NotFound else Ok(t)
    ensures id != t.id ==> ShowTask(AfterCreate(s, t), id) == ShowTask(s, id)
  {
    var r := AfterCreate(s, t);
    assert r == s + [t];
    assert IsFirstMatch(r, t.id, |s|);
    if id != t.id {
      if Absent(s, id) {
        assert Absent(r, id);
      } else {
        var k := FindFirst(s, id).value;
        assert IsFirstMatch(r, id, k);
      }
    }
  }

  /** After an accepted create, the list grows by the new record at its end. */
  lemma CreateThenList(s: seq<Task>, t: Task)
    requires CreateOutcome(s, t).Ok?
    ensures ShowAllTasks(AfterCreate(s, t)) == ShowAllTasks(s) + (if t.isDeleted then [] else [t])
  {
    ListedConcat(s, [t]);
    assert ShowAllTasks([t]) == if t.isDeleted then [] else [t];
  }

  // ---------------------------------------------------------------------------
  // Update
  // ---------------------------------------------------------------------------

  /** Update never changes an id, so it keeps the id invariant. */
  lemma UpdateKeepsIds(s: seq<Task>, id: int, p: Task)
    ensures IdsValid(AfterUpdate(s, id, p)) <==> IdsValid(s)
  {
    SameIdsSameMatches(s, AfterUpdate(s, id, p), id);
  }

  /** After an update, get on that id shows the new title and description
      if it showed the record before, and stays NotFound otherwise; a deleted
      record stays hidden even though it was edited. */
  lemma UpdateThenShow(s: seq<Task>, id: int, p: Task)
    ensures ShowTask(AfterUpdate(s, id, p), id) ==
              match ShowTask(s, id)
              case Ok(t) => Ok(t.(title := p.title, description := p.description))
              case _ => NotFound
  {
    var r := AfterUpdate(s, id, p);
    SameIdsSameMatches(s, r, id);
    if !Absent(s, id) {
      var k := FindFirst(s, id).value;
      assert IsFirstMatch(r, id, k);
    }
  }

  /** Update leaves what get answers for every other id unchanged. */
  lemma UpdateKeepsOtherLookups(s: seq<Task>, id: int, p: Task, other: int)
    requires other != id
    ensures ShowTask(AfterUpdate(s, id, p), other) == ShowTask(s, other)
  {
    var r := AfterUpdate(s, id, p);
    SameIdsSameMatches(s, r, other);
    if !Absent(s, other) {
      var k := FindFirst(s, other).value;
      assert IsFirstMatch(r, other, k);
      assert !IsFirstMatch(s, id, k);
    }
  }

  /** Replacing one record by another with the same deleted flag keeps the
      number of listed records. */
  lemma ListedLengthSplice(a: seq<Task>, x: Task, y: Task, b: seq<Task>)
    requires x.isDeleted == y.isDeleted
    ensures |ShowAllTasks(a + [x] + b)| == |ShowAllTasks(a + [y] + b)|
  {
    ListedConcat(a + [x], b);
    ListedConcat(a, [x]);
    ListedConcat(a + [y], b);
    ListedConcat(a, [y]);
    assert |ShowAllTasks([x])| == |ShowAllTasks([y])|;
  }

  /** Update keeps the number of listed records, and an edited record that
      was soft-deleted stays out of the list. */
  lemma UpdateThenList(s: seq<Task>, id: int, p: Task)
    ensures |ShowAllTasks(AfterUpdate(s, id, p))| == |ShowAllTasks(s)|
    ensures forall k :: IsFirstMatch(s, id, k) && s[k].isDeleted ==>
              AfterUpdate(s, id, p)[k] !in ShowAllTasks(AfterUpdate(s, id, p))
  {
    var r := AfterUpdate(s, id, p);
    if !Absent(s, id) {
      var k := FindFirst(s, id).value;
      assert s == s[..k] + [s[k]] + s[k + 1..];
      assert r == s[..k] + [r[k]] + s[k + 1..];
      ListedLengthSplice(s[..k], s[k], r[k], s[k + 1..]);
      ListedIff(r, r[k]);
    }
  }

  // ---------------------------------------------------------------------------
  // Delete
  // ---------------------------------------------------------------------------

  /** Delete never changes an id, so it keeps the id invariant. */
  lemma DeleteKeepsIds(s: seq<Task>, id: int)
    ensures IdsValid(AfterDelete(s, id)) <==> IdsValid(s)
  {
    SameIdsSameMatches(s, AfterDelete(s, id), id);
  }

  /** After a delete, get on that id answers NotFound. */
  lemma DeleteThenShow(s: seq<Task>, id: int)
    ensures ShowTask(AfterDelete(s, id), id) == NotFound
  {
    var r := AfterDelete(s, id);
    SameIdsSameMatches(s, r, id);
    if !Absent(s, id) {
      var k := FindFirst(s, id).value;
      assert IsFirstMatch(r, id, k);
    }
  }

  /** On a store with valid ids, after a delete no listed record has that id. */
  lemma DeleteThenList(s: seq<Task>, id: int)
    requires IdsValid(s)
    ensures forall t :: t in ShowAllTasks(AfterDelete(s, id)) ==> t.id != id
  {
    var r := AfterDelete(s, id);
    forall t | t in ShowAllTasks(r) ensures t.id != id {
      ListedIff(r, t);
      var j :| 0 <= j < |r| && r[j] == t;
      assert !IsFirstMatch(s, id, j) && s[j] == t;
      assert forall i :: 0 <= i < j ==> s[i].id != s[j].id;
    }
  }

  /** Deleting an id whose first record is already deleted answers the same
      confirmation and leaves the store as it was; so a second delete of the
      same id succeeds again and changes nothing. */
  lemma DeleteAgain(s: seq<Task>, id: int)
    ensures (exists i :: IsFirstMatch(s, id, i) && s[i].isDeleted) ==> AfterDelete(s, id) == s
    ensures AfterDelete(AfterDelete(s, id), id) == AfterDelete(s, id)
    ensures DeleteOutcome(AfterDelete(s, id), id) == DeleteOutcome(s, id)
  {
    var r := AfterDelete(s, id);
    SameIdsSameMatches(s, r, id);
    if !Absent(s, id) {
      var k := FindFirst(s, id).value;
      assert IsFirstMatch(r, id, k);
      assert r[k].title == s[k].title;
    }
  }

  /** Delete leaves what get answers for every other id unchanged. */
  lemma DeleteKeepsOtherLookups(s: seq<Task>, id: int, other: int)
    requires other != id
    ensures ShowTask(AfterDelete(s, id), other) == ShowTask(s, other)
  {
    var r := AfterDelete(s, id);
    SameIdsSameMatches(s, r, other);
    if !Absent(s, other) {
      var k := FindFirst(s, other).value;
      assert IsFirstMatch(r, other, k);
      assert !IsFirstMatch(s, id, k);
    }
  }
}
