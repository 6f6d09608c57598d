/**
 The comment board's state manager: the displayed list, the id counter that
 numbers locally added comments, and (as ghost state) the create and delete
 requests the handlers send to the remote store. Each handler runs as one
 atomic step, as the single-threaded event loop runs it.
 */
module App {

  import opened Wrappers
  import opened CommentList

  /** A request handed to the remote store. A create carries a draft, so never an id. */
  datatype Request = Create(body: Draft) | Delete(id: int)

  class CommentBoard {
    /** The list on display, in display order. */
    var comments: seq<Comment>
    /** The next local id; starts at 1 and is only ever incremented. */
    var counter: nat
    /** Every request sent so far, oldest first. */
    ghost var outbox: seq<Request>

    /** Locally numbered state: ids distinct and all below the counter. */
    ghost predicate Valid()
      reads this
    {
      WellNumbered(comments, counter)
    }

    /** A freshly mounted board: nothing shown, the counter at 1, nothing sent. */
    constructor ()
      ensures comments == [] && counter == 1 && outbox == []
      ensures Valid()
    {
      comments := [];
      counter := 1;
      outbox := [];
    }

    /**
     Appends the draft under the current counter value and bumps the counter.
     Sends nothing.
     */
    method Add(d: Draft)
      modifies this
      ensures |comments| == |old(comments)| + 1
      ensures comments[..|old(comments)|] == old(comments)
      ensures comments[|old(comments)|] == Comment(old(counter), d.author, d.text)
      ensures counter == old(counter) + 1
      ensures outbox == old(outbox)
      ensures old(Valid()) ==> Valid()
    {
      ghost var before := comments;
      if Valid() {
        AddKeepsWellNumbered(comments, counter, d);
      }
      comments := comments + [Stamp(d, counter)];
      counter := counter + 1;
      assert comments[..|before|] == before;
    }

    /**
     Sends a delete request for `id`, then drops every entry carrying that id.
     The counter is untouched.
     */
    method Remove(id: int)
      modifies this
      ensures comments == Filter(old(comments), id)
      ensures counter == old(counter)
      ensures outbox == old(outbox) + [Delete(id)]
      ensures old(Valid()) ==> Valid()
    {
      outbox := outbox + [Delete(id)];
      if Valid() {
        FilterKeepsWellNumbered(comments, counter, id);
      }
      comments := Filter(comments, id);
    }

    /**
     The form handler. An absent or empty field changes nothing and sends
     nothing; otherwise the draft is added locally and one create request
     carrying just its author and text is sent.
     */
    method Submit(author: Option<string>, text: Option<string>)
      modifies this
      ensures ReadForm(author, text).None? ==>
                comments == old(comments) && counter == old(counter) && outbox == old(outbox)
      ensures ReadForm(author, text).Some? ==>
                var d := Draft(author.value, text.value);
                && comments == old(comments) + [Stamp(d, old(counter))]
                && counter == old(counter) + 1
                && outbox == old(outbox) + [Create(d)]
      ensures old(Valid()) ==> Valid()
    {
      var form := ReadForm(author, text);
      if form.None? {
        return;
      }
      var d := form.value;
      ghost var before := comments;
      Add(d);
      assert comments == before + [Stamp(d, old(counter))];
      outbox := outbox + [Create(d)];
    }

    /**
     The initial load. A successful fetch replaces the list wholesale; a
     failed one leaves everything as it was. Either way the counter is
     untouched, so nothing ties the fetched ids to it.
     */
    method Load(result: Option<seq<Comment>>)
      modifies this
      ensures result.Some? ==> comments == result.value
      ensures result.None? ==> comments == old(comments)
      ensures counter == old(counter) && outbox == old(outbox)
      ensures result.None? ==> (old(Valid()) <==> Valid())
      ensures result.Some? ==> (Valid() <==> WellNumbered(result.value, counter))
    {
      if result.Some? {
        comments := result.value;
      }
    }
  }

  /**
   Submitting a name and a comment on a fresh board shows one entry with the
   first id and sends one create request with the same name and comment.
   */
  method SubmitScenario()
  {
    var b := new CommentBoard();
    b.Submit(Some("Alice"), Some("Hi"));
    assert b.comments == [Comment(1, "Alice", "Hi")];
    assert b.outbox == [Create(Draft("Alice", "Hi"))];
    b.Submit(Some("Bob"), Some(""));
    assert b.comments == [Comment(1, "Alice", "Hi")] && b.counter == 2;
    assert b.outbox == [Create(Draft("Alice", "Hi"))];
  }

  /**
   A failed initial load leaves the board empty; a successful one shows the
   fetched list exactly. Server ids then collide with the local counter: the
   next submission reuses id 1, and removing id 1 drops both entries.
   */
  method LoadScenario()
  {
    var b := new CommentBoard();
    b.Load(None);
    assert b.comments == [] && b.Valid();
    var fetched := [Comment(1, "Bob", "Hey")];
    b.Load(Some(fetched));
    assert b.comments == fetched;
    assert fetched[0].id == 1;
    AddAfterCollision(fetched, 1, Draft("Alice", "Hi"));
    assert !b.Valid();
    b.Submit(Some("Alice"), Some("Hi"));
    assert b.comments == [Comment(1, "Bob", "Hey"), Comment(1, "Alice", "Hi")];
    assert !UniqueIds(b.comments);
    var both := b.comments;
    assert both[1..] == [both[1]] && [both[1]][1..] == [];
    assert CountId([both[1]], 1) == 1;
    assert CountId(both, 1) == 2;
    FilterDropsEveryMatch(both, 1);
    b.Remove(1);
    assert b.comments == [];
    assert b.outbox == [Create(Draft("Alice", "Hi")), Delete(1)];
  }
}
