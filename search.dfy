/** The user record and the filter that `filterUsers` applies to the
    collection: the match predicate, the order-preserving filter and the
    view rule that shows everything for a blank query. */
module Search {
  import opened JsString

  /** One record of the fetched collection; never changed once fetched. */
  datatype User = User(id: string, firstName: string, lastName: string, email: string)

  /** The text a row click writes into the search box: `${firstName} ${lastName}`. */
  function FullName(u: User): (r: string)
    ensures |r| == |u.firstName| + 1 + |u.lastName|
    ensures r[|u.firstName|] == ' '
  {
    u.firstName + " " + u.lastName
  }

  /** The filter callback: the lower-cased first or last name includes the
      lower-cased query. The query is used untrimmed. */
  predicate Matches(u: User, query: string)
  {
    Includes(ToLower(u.firstName), ToLower(query)) ||
    Includes(ToLower(u.lastName), ToLower(query))
  }

  /** What the callback means: the lower-cased query is a substring of the
      lower-cased first name or of the lower-cased last name. */
  ghost predicate NameContains(u: User, query: string)
  {
    IsSubstring(ToLower(query), ToLower(u.firstName)) ||
    IsSubstring(ToLower(query), ToLower(u.lastName))
  }

  lemma MatchesMeansNameContains(u: User, query: string)
    ensures Matches(u, query) <==> NameContains(u, query)
  {
    IncludesIff(ToLower(u.firstName), ToLower(query));
    IncludesIff(ToLower(u.lastName), ToLower(query));
  }

  /** A query longer than both names matches neither of them. */
  lemma LongQueryMisses(u: User, query: string)
    requires |query| > |u.firstName| && |query| > |u.lastName|
    ensures !Matches(u, query)
  {
  }

  /** `users.filter(user => Matches(user, query))`. */
  function Filter(users: seq<User>, query: string): (r: seq<User>)
    ensures |r| <= |users|
    ensures forall x :: x in r ==> x in users
  {
    if users == [] then []
    else (if Matches(users[0], query) then [users[0]] else []) + Filter(users[1..], query)
  }

  /** `a` is an order-preserving subsequence of `b`. */
  predicate IsSubsequence<T(==)>(a: seq<T>, b: seq<T>)
  {
    a == [] ||
    (b != [] && ((a[0] == b[0] && IsSubsequence(a[1..], b[1..])) || IsSubsequence(a, b[1..])))
  }

  /** Every record the filter keeps matches the query. */
  lemma {:induction false} FilterSound(users: seq<User>, query: string)
    ensures forall x :: x in Filter(users, query) ==> Matches(x, query)
  {
    if users != [] {
      FilterSound(users[1..], query);
    }
  }

  /** The filter keeps exactly the matching records, each as often as it
      occurs in the collection. */
  lemma {:induction false} FilterCount(users: seq<User>, query: string, x: User)
    ensures multiset(Filter(users, query))[x] ==
            if Matches(x, query) then multiset(users)[x] else 0
  {
    if users != [] {
      FilterCount(users[1..], query, x);
      assert users == [users[0]] + users[1..];
    }
  }

  /** The filter keeps the collection's order. */
  lemma {:induction false} FilterIsSubsequence(users: seq<User>, query: string)
    ensures IsSubsequence(Filter(users, query), users)
  {
    if users != [] {
      FilterIsSubsequence(users[1..], query);
      var r := Filter(users, query);
      if Matches(users[0], query) {
        assert r[0] == users[0] && r[1..] == Filter(users[1..], query);
      } else {
        assert r == Filter(users[1..], query);
      }
    }
  }

  /** Filtering distributes over concatenation of collections. */
  lemma {:induction false} FilterAppend(a: seq<User>, b: seq<User>, query: string)
    ensures Filter(a + b, query) == Filter(a, query) + Filter(b, query)
  {
    if a != [] {
      FilterAppend(a[1..], b, query);
      assert (a + b)[1..] == a[1..] + b;
    } else {
      assert a + b == b;
    }
  }

  /** The filtered view `filterUsers` stores: the whole collection when the
      trimmed query is empty, the matching records otherwise. */
  function ViewFor(users: seq<User>, query: string): (r: seq<User>)
    ensures |r| <= |users|
    ensures forall x :: x in r ==> x in users
  {
    if Trim(query) == [] then users else Filter(users, query)
  }

  /** A query that is all whitespace shows the collection itself, the same
      records in the same order; any other query shows the filter result. */
  lemma ViewOfBlankQuery(users: seq<User>, query: string)
    ensures AllWhitespace(query) ==> ViewFor(users, query) == users
    ensures !AllWhitespace(query) ==> ViewFor(users, query) == Filter(users, query)
  {
    TrimEmptyIff(query);
  }

  /** Soundness: for a query that is not all whitespace, every record in the
      view is a record of the collection whose lower-cased first or last name
      contains the lower-cased query. */
  lemma ViewSound(users: seq<User>, query: string, x: User)
    requires !AllWhitespace(query) && x in ViewFor(users, query)
    ensures x in users && NameContains(x, query)
  {
    ViewOfBlankQuery(users, query);
    FilterSound(users, query);
    MatchesMeansNameContains(x, query);
  }

  /** Completeness and order: for a query that is not all whitespace, the
      view is a subsequence of the collection that holds every matching
      record as often as the collection does, and no other record. */
  lemma ViewIsMatchingSubsequence(users: seq<User>, query: string)
    requires !AllWhitespace(query)
    ensures IsSubsequence(ViewFor(users, query), users)
    ensures forall x :: multiset(ViewFor(users, query))[x] ==
                        if NameContains(x, query) then multiset(users)[x] else 0
  {
    ViewOfBlankQuery(users, query);
    FilterIsSubsequence(users, query);
    forall x ensures multiset(ViewFor(users, query))[x] ==
                     if NameContains(x, query) then multiset(users)[x] else 0
    {
      FilterCount(users, query, x);
      MatchesMeansNameContains(x, query);
    }
  }

  /** In particular no matching record of the collection is left out. */
  lemma ViewComplete(users: seq<User>, query: string, x: User)
    requires !AllWhitespace(query) && x in users && NameContains(x, query)
    ensures x in ViewFor(users, query)
  {
    ViewIsMatchingSubsequence(users, query);
    assert multiset(ViewFor(users, query))[x] > 0;
  }

  /** A record never matches its own full name: both names are shorter than
      `first + " " + last`. So once the query is a record's full name, that
      record is in the view only if the full name is all whitespace. */
  lemma OwnFullNameExcludes(users: seq<User>, u: User)
    requires !AllWhitespace(FullName(u))
    ensures u !in ViewFor(users, FullName(u))
  {
    if u in ViewFor(users, FullName(u)) {
      ViewSound(users, FullName(u), u);
    }
  }

  /** "an" matches Ann Lee through the first name, ignoring case. */
  lemma AnnMatches(ann: User)
    requires ann.firstName == "Ann"
    ensures Matches(ann, "an")
  {
    assert Lower('A') == 'a';
    assert ToLower("an") == "an" && ToLower("Ann") == "ann";
    assert "ann"[..2] == "an";
  }

  /** "an" matches neither name of Bob Roe: neither contains an 'a'. */
  lemma BobMisses(bob: User)
    requires bob.firstName == "Bob" && bob.lastName == "Roe"
    ensures !Matches(bob, "an")
  {
    assert Lower('B') == 'b' && Lower('R') == 'r';
    assert ToLower("an") == "an";
    assert ToLower("Bob") == "bob" && ToLower("Roe") == "roe";
    MissingFirstCharExcludes("bob", "an");
    MissingFirstCharExcludes("roe", "an");
  }

  /** The example of a case-insensitive match: over Ann Lee and Bob Roe,
      whatever their ids and e-mail addresses, "an" picks Ann only. */
  lemma AnnMatchesAn(ann: User, bob: User)
    requires ann.firstName == "Ann" && ann.lastName == "Lee"
    requires bob.firstName == "Bob" && bob.lastName == "Roe"
    ensures ViewFor([ann, bob], "an") == [ann]
  {
    assert !AllWhitespace("an") by { assert !IsWhitespace("an"[0]); }
    ViewOfBlankQuery([ann, bob], "an");
    AnnMatches(ann);
    BobMisses(bob);
    assert [ann, bob][1..] == [bob];
  }

  /** Clicking the only row, Bob Lee, writes "Bob Lee" into the box; the
      filter then run with that query leaves the table empty. */
  lemma BobLeeFiltersToNothing(bob: User)
    requires bob.firstName == "Bob" && bob.lastName == "Lee"
    ensures FullName(bob) == "Bob Lee"
    ensures ViewFor([bob], FullName(bob)) == []
  {
    assert !AllWhitespace(FullName(bob)) by { assert !IsWhitespace(FullName(bob)[0]); }
    OwnFullNameExcludes([bob], bob);
  }
}
