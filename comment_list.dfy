/**
 The list values of the comment board: the comment record, the form's draft,
 the pure list operations the board builds its new state with (append with a
 fresh id, and filtering out an id), and the numbering invariant that locally
 generated ids keep.
 */
module CommentList {

  import opened Wrappers

  /** A displayed comment. Ids are JavaScript numbers, taken here as integers. */
  datatype Comment = Comment(id: int, author: string, text: string)

  /** A comment without its id: what the form yields and what a create request carries. */
  datatype Draft = Draft(author: string, text: string)

  /** The comment `d` becomes once the counter value `id` is attached to it. */
  function Stamp(d: Draft, id: int): Comment
  {
    Comment(id, d.author, d.text)
  }

  // ---------------------------------------------------------------------------
  // Form presence check

  /** JavaScript truthiness of a form value: present and not the empty string. */
  predicate Truthy(v: Option<string>)
  {
    v.Some? && v.value != ""
  }

  /**
   Reads the two form fields. An absent or empty field aborts the submission;
   otherwise the draft holds the two strings exactly as entered.
   */
  function ReadForm(author: Option<string>, text: Option<string>): (r: Option<Draft>)
    ensures r.None? <==> author == None || author == Some("") || text == None || text == Some("")
    ensures r.Some? ==> Some(r.value.author) == author && Some(r.value.text) == text
  {
    if !Truthy(author) || !Truthy(text) then None
    else Some(Draft(author.value, text.value))
  }

  // ---------------------------------------------------------------------------
  // Removing by id

  /** True when some entry of `cs` carries the id `id`. */
  predicate HasId(cs: seq<Comment>, id: int)
  {
    exists k :: 0 <= k < |cs| && cs[k].id == id
  }

  /** The entries of `cs` whose id differs from `id`, front to back. */
  function Filter(cs: seq<Comment>, id: int): (r: seq<Comment>)
    ensures |r| <= |cs|
    ensures forall k :: 0 <= k < |r| ==> r[k].id != id
    ensures forall c :: c in r ==> c in cs
    ensures forall c :: c in cs && c.id != id ==> c in r
  {
    if cs == [] then []
    else if cs[0].id != id then [cs[0]] + Filter(cs[1..], id)
    else Filter(cs[1..], id)
  }

  /** Filtering a concatenation filters each part: the filter is stable. */
  lemma {:induction false} FilterAppend(a: seq<Comment>, b: seq<Comment>, id: int)
    ensures Filter(a + b, id) == Filter(a, id) + Filter(b, id)
  {
    if a == [] {
      assert a + b == b;
    } else {
      assert (a + b)[0] == a[0];
      assert (a + b)[1..] == a[1..] + b;
      FilterAppend(a[1..], b, id);
    }
  }

  /** A single entry is kept exactly when its id differs. */
  lemma FilterSingleton(x: Comment, id: int)
    ensures Filter([x], id) == if x.id != id then [x] else []
  {
  }

  /** The positions of `cs` whose id differs from `id`, in increasing order. */
  function KeptIndices(cs: seq<Comment>, id: int): (ix: seq<int>)
    ensures forall k :: 0 <= k < |ix| ==> 0 <= ix[k] < |cs|
  {
    if cs == [] then []
    else KeptIndices(cs[..|cs| - 1], id) + (if cs[|cs| - 1].id != id then [|cs| - 1] else [])
  }

  /** The kept positions are listed in strictly increasing order. */
  lemma {:induction false} KeptIndicesIncrease(cs: seq<Comment>, id: int)
    ensures forall k, l :: 0 <= k < l < |KeptIndices(cs, id)| ==>
              KeptIndices(cs, id)[k] < KeptIndices(cs, id)[l]
  {
    if cs != [] {
      KeptIndicesIncrease(cs[..|cs| - 1], id);
    }
  }

  /** A position is kept exactly when its entry's id differs from `id`. */
  lemma {:induction false} KeptIndicesMembers(cs: seq<Comment>, id: int)
    ensures forall j :: 0 <= j < |cs| ==> (j in KeptIndices(cs, id) <==> cs[j].id != id)
  {
    if cs != [] {
      var init := cs[..|cs| - 1];
      KeptIndicesMembers(init, id);
      forall j | 0 <= j < |cs| ensures j in KeptIndices(cs, id) <==> cs[j].id != id {
        if j < |cs| - 1 {
          assert init[j] == cs[j];
        }
      }
    }
  }

  /**
   The filtered list is exactly `cs` read at the kept positions, in order.
   With KeptIndicesIncrease and KeptIndicesMembers this says that filtering
   drops exactly the entries with the id and neither reorders nor duplicates
   the rest.
   */
  lemma {:induction false} FilterSelects(cs: seq<Comment>, id: int)
    ensures |KeptIndices(cs, id)| == |Filter(cs, id)|
    ensures forall k :: 0 <= k < |KeptIndices(cs, id)| ==>
              Filter(cs, id)[k] == cs[KeptIndices(cs, id)[k]]
  {
    if cs != [] {
      var n := |cs|;
      var init, last := cs[..n - 1], cs[n - 1];
      var ix0, r0 := KeptIndices(init, id), Filter(init, id);
      FilterSelects(init, id);
      assert init + [last] == cs;
      FilterAppend(init, [last], id);
      FilterSingleton(last, id);
      var tail := if last.id != id then [last] else [];
      var ix, r := KeptIndices(cs, id), Filter(cs, id);
      assert r == r0 + tail;
      assert ix == ix0 + (if last.id != id then [n - 1] else []);
      forall k | 0 <= k < |ix| ensures r[k] == cs[ix[k]] {
        if k < |ix0| {
          assert r[k] == r0[k] && ix[k] == ix0[k];
          assert init[ix0[k]] == cs[ix0[k]];
        }
      }
    }
  }

  /** Filtering leaves the list as it was exactly when no entry has the id. */
  lemma {:induction false} FilterUnchangedIff(cs: seq<Comment>, id: int)
    ensures Filter(cs, id) == cs <==> !HasId(cs, id)
  {
    if !HasId(cs, id) {
      if cs != [] {
        assert !HasId(cs[1..], id) by {
          forall k | 0 <= k < |cs[1..]| ensures cs[1..][k].id != id {
            assert cs[1..][k] == cs[k + 1];
          }
        }
        FilterUnchangedIff(cs[1..], id);
        assert [cs[0]] + cs[1..] == cs;
      }
    } else {
      var k :| 0 <= k < |cs| && cs[k].id == id;
    }
  }

  /** Removing an id twice leaves the same list as removing it once. */
  lemma FilterIdempotent(cs: seq<Comment>, id: int)
    ensures Filter(Filter(cs, id), id) == Filter(cs, id)
  {
  }

  /** Cutting one entry with the id out of two parts that lack it leaves the two parts. */
  lemma FilterCutsOne(front: seq<Comment>, x: Comment, back: seq<Comment>)
    requires !HasId(front, x.id) && !HasId(back, x.id)
    ensures Filter(front + [x] + back, x.id) == front + back
  {
    FilterAppend(front + [x], back, x.id);
    FilterAppend(front, [x], x.id);
    FilterSingleton(x, x.id);
    FilterUnchangedIff(front, x.id);
    FilterUnchangedIff(back, x.id);
    assert Filter(front + [x], x.id) == front;
  }

  /**
   With unique ids, removing the id at position `k` drops that one entry and
   keeps every other entry where it was relative to the rest.
   */
  lemma FilterRemovesOnlyMatch(cs: seq<Comment>, k: int)
    requires UniqueIds(cs)
    requires 0 <= k < |cs|
    ensures Filter(cs, cs[k].id) == cs[..k] + cs[k + 1..]
    ensures |Filter(cs, cs[k].id)| == |cs| - 1
  {
    var id := cs[k].id;
    var front, back := cs[..k], cs[k + 1..];
    assert cs == front + [cs[k]] + back;
    assert !HasId(front, id) by {
      forall j | 0 <= j < |front| ensures front[j].id != id {
        assert front[j] == cs[j];
      }
    }
    assert !HasId(back, id) by {
      forall j | 0 <= j < |back| ensures back[j].id != id {
        assert back[j] == cs[k + 1 + j];
      }
    }
    FilterCutsOne(front, cs[k], back);
  }

  /** The number of entries of `cs` that carry the id `id`. */
  function CountId(cs: seq<Comment>, id: int): nat
  {
    if cs == [] then 0
    else (if cs[0].id == id then 1 else 0) + CountId(cs[1..], id)
  }

  /**
   Removal is not of one entry but of every entry with the id: the list
   shrinks by exactly the number of entries that carry it.
   */
  lemma {:induction false} FilterDropsEveryMatch(cs: seq<Comment>, id: int)
    ensures |Filter(cs, id)| == |cs| - CountId(cs, id)
  {
    if cs != [] {
      FilterDropsEveryMatch(cs[1..], id);
    }
  }

  // ---------------------------------------------------------------------------
  // Numbering invariant

  /** Every id in `cs` is below `bound`. */
  predicate IdsBelow(cs: seq<Comment>, bound: int)
  {
    forall k :: 0 <= k < |cs| ==> cs[k].id < bound
  }

  /** No two entries of `cs` share an id. */
  predicate UniqueIds(cs: seq<Comment>)
  {
    forall k, l :: 0 <= k < l < |cs| ==> cs[k].id != cs[l].id
  }

  /** The invariant locally numbered lists keep: ids distinct and all below the counter. */
  predicate WellNumbered(cs: seq<Comment>, counter: int)
  {
    IdsBelow(cs, counter) && UniqueIds(cs)
  }

  /** Appending a draft stamped with the counter, then bumping it, keeps the invariant. */
  lemma AddKeepsWellNumbered(cs: seq<Comment>, counter: int, d: Draft)
    requires WellNumbered(cs, counter)
    ensures WellNumbered(cs + [Stamp(d, counter)], counter + 1)
  {
  }

  /** Filtering keeps the invariant: it only selects entries, in order. */
  lemma FilterKeepsWellNumbered(cs: seq<Comment>, counter: int, id: int)
    requires WellNumbered(cs, counter)
    ensures WellNumbered(Filter(cs, id), counter)
  {
    var r, ix := Filter(cs, id), KeptIndices(cs, id);
    FilterSelects(cs, id);
    KeptIndicesIncrease(cs, id);
    forall k, l | 0 <= k < l < |r| ensures r[k].id != r[l].id {
      assert ix[k] < ix[l];
      assert r[k] == cs[ix[k]] && r[l] == cs[ix[l]];
    }
    forall k | 0 <= k < |r| ensures r[k].id < counter {
      assert r[k] == cs[ix[k]];
    }
  }

  /**
   Once the list already holds the counter's current value as an id (a list
   taken over from elsewhere can), the next locally added comment duplicates it.
   */
  lemma AddAfterCollision(cs: seq<Comment>, counter: int, d: Draft)
    requires HasId(cs, counter)
    ensures !UniqueIds(cs + [Stamp(d, counter)])
    ensures !IdsBelow(cs, counter)
  {
    var k :| 0 <= k < |cs| && cs[k].id == counter;
    var r := cs + [Stamp(d, counter)];
    assert r[k] == cs[k] && r[|cs|].id == counter;
  }
}
