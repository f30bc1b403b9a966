/** The search box's controller: the four state cells of the component, the
    handlers that overwrite them, and the filter effect that re-runs
    `filterUsers` after a render in which the query or the collection
    changed. */
module Autocomplete {
  import opened JsString
  import opened Search

  datatype Option<T> = None | Some(value: T)

  class Controller {
    /** `inputValue`: the text in the search box. */
    var query: string
    /** `users`: the collection as fetched. */
    var users: seq<User>
    /** `filteredUsers`: the rows the table shows. */
    var view: seq<User>
    /** `selectedUser`. */
    var selected: Option<User>
    /** True when `query` or `users` changed since the filter effect last
        ran, so that the next effect pass runs `filterUsers` again. */
    var filterStale: bool

    /** The view only ever holds records of the collection; a selection's
        full name is the query; and when the
        effect has caught up, the view is what the filter computes, or the
        single clicked record whose full name is already the query (a click
        that does not change the query does not re-run the filter). */
    ghost predicate Valid()
      reads this
    {
      (forall x :: x in view ==> x in users) &&
      (selected.Some? ==> query == FullName(selected.value)) &&
      (!filterStale ==>
         view == ViewFor(users, query) || (|view| == 1 && query == FullName(view[0])))
    }

    /** Mounting: every cell at its initial value; the mount-time effect
        pass filters the empty collection to an empty view. */
    constructor ()
      ensures Valid()
      ensures query == [] && users == [] && view == [] && selected == None
      ensures !filterStale
    {
      query := [];
      users := [];
      view := [];
      selected := None;
      filterStale := false;
    }

    /** The success branch of the fetch: the collection and the view are both
        set to the fetched array. The collection is a new array, so the
        filter effect is due. */
    method Initialize(fetched: seq<User>)
      requires Valid()
      modifies this`users, this`view, this`filterStale
      ensures Valid()
      ensures users == fetched && view == fetched && filterStale
    {
      users := fetched;
      view := fetched;
      filterStale := true;
    }

    /** `filterUsers`: writes the view, and only the view. */
    method Recompute()
      requires Valid()
      modifies this`view
      ensures Valid()
      ensures view == ViewFor(users, query)
    {
      if Trim(query) == [] {
        view := users;
      } else {
        view := Filter(users, query);
      }
    }

    /** The effect pass after a render: runs `filterUsers` when its inputs
        changed, and otherwise leaves the view as the handlers set it. */
    method Settle()
      requires Valid()
      modifies this`view, this`filterStale
      ensures Valid() && !filterStale
      ensures view == if old(filterStale) then ViewFor(users, query) else old(view)
    {
      if filterStale {
        Recompute();
        filterStale := false;
      }
    }

    /** `handleInputChange`: the query becomes the new text and the selection
        is cleared; the view waits for the effect. */
    method Type(text: string)
      requires Valid()
      modifies this`query, this`selected, this`filterStale
      ensures Valid()
      ensures query == text && selected == None
      ensures filterStale == (old(filterStale) || text != old(query))
    {
      filterStale := filterStale || text != query;
      query := text;
      selected := None;
    }

    /** `handleUserClick` on a row of the table: the clicked record becomes
        the selection, its full name the query, and the single row of the
        view. */
    method Click(u: User)
      requires Valid() && u in view
      modifies this`query, this`selected, this`view, this`filterStale
      ensures Valid()
      ensures selected == Some(u) && query == FullName(u) && view == [u]
      ensures filterStale == (old(filterStale) || FullName(u) != old(query))
    {
      filterStale := filterStale || FullName(u) != query;
      selected := Some(u);
      query := FullName(u);
      view := [u];
    }

    /** The effect pass that keeps what the click handler set with
        `setFilteredUsers([user])`: the view follows the selection when there
        is one and the filter otherwise. */
    method SettleHonouringSelection()
      requires Valid() && (selected.Some? ==> selected.value in users)
      modifies this`view, this`filterStale
      ensures Valid() && !filterStale
      ensures selected.Some? ==> view == [selected.value]
      ensures selected.None? ==> view == ViewFor(users, query)
    {
      match selected
      case Some(u) =>
        view := [u];
        filterStale := false;
      case None =>
        Recompute();
        filterStale := false;
    }
  }

  /** A click followed by the effect pass, as the component runs them: when
      the click changes the query, the filter runs with the clicked record's
      full name, and the clicked record drops out of the table. */
  method ClickThenSettle(c: Controller, u: User)
    requires c.Valid() && u in c.view
    modifies c
    ensures c.Valid() && !c.filterStale
    ensures c.selected == Some(u) && c.query == FullName(u) && c.users == old(c.users)
    ensures old(c.filterStale) || FullName(u) != old(c.query) ==>
              c.view == ViewFor(c.users, FullName(u))
    ensures !old(c.filterStale) && FullName(u) == old(c.query) ==> c.view == [u]
    ensures FullName(u) != old(c.query) && !AllWhitespace(FullName(u)) ==> u !in c.view
  {
    c.Click(u);
    c.Settle();
    if c.view == ViewFor(c.users, FullName(u)) && !AllWhitespace(FullName(u)) {
      OwnFullNameExcludes(c.users, u);
    }
  }

  /** A click followed by the selection-honouring effect pass keeps the
      clicked record as the only row. */
  method ClickThenSettleHonouringSelection(c: Controller, u: User)
    requires c.Valid() && u in c.view
    modifies c
    ensures c.Valid() && !c.filterStale
    ensures c.selected == Some(u) && c.query == FullName(u) && c.view == [u]
    ensures c.users == old(c.users)
  {
    c.Click(u);
    c.SettleHonouringSelection();
  }

  /** Typing after a selection: the selection is gone and the view is the
      filter rule for the new text over the whole collection. */
  method TypeThenSettle(c: Controller, text: string)
    requires c.Valid()
    modifies c
    ensures c.Valid() && !c.filterStale
    ensures c.query == text && c.selected == None && c.users == old(c.users)
    ensures old(c.filterStale) || text != old(c.query) ==> c.view == ViewFor(c.users, text)
  {
    c.Type(text);
    c.Settle();
  }

  /** Loading Ann Lee and Bob Roe shows both; typing "an" shows Ann; clicking
      Ann's row shows her alone, until the effect empties the table. Returns
      the final rows and selection. */
  method AnnScenario(ann: User, bob: User) returns (rows: seq<User>, picked: Option<User>)
    requires ann.firstName == "Ann" && ann.lastName == "Lee"
    requires bob.firstName == "Bob" && bob.lastName == "Roe"
    ensures rows == [] && picked == Some(ann)
  {
    var c := new Controller();
    c.Initialize([ann, bob]);
    c.Settle();
    assert c.view == [ann, bob] by { ViewOfBlankQuery([ann, bob], []); }
    c.Type("an");
    c.Settle();
    assert c.view == [ann] by { AnnMatchesAn(ann, bob); }
    c.Click(ann);
    assert c.view == [ann] && c.selected == Some(ann);
    assert FullName(ann)[0] == 'A' && FullName(ann) != "an";
    c.Settle();
    assert c.view == [] by {
      assert !AllWhitespace(FullName(ann)) by { assert !IsWhitespace(FullName(ann)[0]); }
      ViewOfBlankQuery([ann, bob], FullName(ann));
      LongQueryMisses(ann, FullName(ann));
      LongQueryMisses(bob, FullName(ann));
      assert [ann, bob][1..] == [bob];
    }
    rows, picked := c.view, c.selected;
  }
}
