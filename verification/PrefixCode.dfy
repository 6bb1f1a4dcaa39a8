/**
 Lists of items spelled one after the other. When no two items can start the same
 text, a spelled list can be read in only one way.
 */
module PrefixCode {
  import opened Sequences

  predicate AllOf<T>(items: seq<T>, legal: T -> bool) { forall k :: 0 <= k < |items| ==> legal(items[k]) }

  function Joined<T, E>(items: seq<T>, spell: T -> seq<E>): seq<E> {
    if items == [] then [] else Joined(items[..|items| - 1], spell) + spell(items[|items| - 1])
  }

  predicate Begins<T, E(==)>(text: seq<E>, item: T, legal: T -> bool, spell: T -> seq<E>) {
    legal(item) && spell(item) <= text
  }

  ghost predicate NothingBegins<T(!new), E>(text: seq<E>, legal: T -> bool, spell: T -> seq<E>) {
    forall item :: !Begins(text, item, legal, spell)
  }

  /** No item is spelled by nothing, and no two items start the same text. */
  ghost predicate Readable<T(!new), E(!new)>(legal: T -> bool, spell: T -> seq<E>) {
    && (forall item :: legal(item) ==> spell(item) != [])
    && (forall text, a, b :: Begins(text, a, legal, spell) && Begins(text, b, legal, spell) ==> a == b)
  }

  lemma JoinedLast<T, E>(items: seq<T>, last: T, spell: T -> seq<E>)
    ensures Joined(items + [last], spell) == Joined(items, spell) + spell(last)
  {
    FrontOf(items, last);
  }

  lemma {:induction false} JoinedJoin<T, E>(a: seq<T>, b: seq<T>, spell: T -> seq<E>)
    ensures Joined(a + b, spell) == Joined(a, spell) + Joined(b, spell)
  {
    if b == [] {
      assert a + b == a;
    } else {
      var front, last := b[..|b| - 1], b[|b| - 1];
      FrontLast(b);
      Associates(a, front, [last]);
      JoinedJoin(a, front, spell);
      JoinedLast(a + front, last, spell);
      Associates(Joined(a, spell), Joined(front, spell), spell(last));
    }
  }

  lemma JoinedFirst<T, E>(items: seq<T>, spell: T -> seq<E>)
    requires items != []
    ensures Joined(items, spell) == spell(items[0]) + Joined(items[1..], spell)
  {
    var one := [items[0]];
    HeadTail(items);
    JoinedJoin(one, items[1..], spell);
    assert one[..0] == [];
    assert Joined(one, spell) == [] + spell(items[0]);
  }

  lemma FirstUnique<T(!new), E(!new)>(item: T, rest: seq<E>, items: seq<T>, legal: T -> bool, spell: T -> seq<E>)
    requires Readable(legal, spell) && legal(item) && AllOf(items, legal) && spell(item) + rest == Joined(items, spell)
    ensures items != [] && items[0] == item && Joined(items[1..], spell) == rest
  {
    var text := Joined(items, spell);
    assert items != [];
    JoinedFirst(items, spell);
    assert Begins(text, item, legal, spell) && Begins(text, items[0], legal, spell);
    assert rest == text[|spell(item)|..];
  }

  /** A list read so far is the start of every list that spells the whole text. */
  lemma {:induction false} Continues<T(!new), E(!new)>(done: seq<T>, rest: seq<E>, items: seq<T>, legal: T -> bool,
                                                       spell: T -> seq<E>)
    returns (more: seq<T>)
    requires Readable(legal, spell) && AllOf(done, legal) && AllOf(items, legal)
    requires Joined(done, spell) + rest == Joined(items, spell)
    ensures items == done + more && AllOf(more, legal) && Joined(more, spell) == rest
  {
    if done == [] {
      more := items;
    } else {
      JoinedFirst(done, spell);
      Associates(spell(done[0]), Joined(done[1..], spell), rest);
      FirstUnique(done[0], Joined(done[1..], spell) + rest, items, legal, spell);
      more := Continues(done[1..], rest, items[1..], legal, spell);
      HeadTail(done);
      HeadTail(items);
      Associates([done[0]], done[1..], more);
    }
  }

  lemma JoinedUnique<T(!new), E(!new)>(a: seq<T>, b: seq<T>, legal: T -> bool, spell: T -> seq<E>)
    requires Readable(legal, spell) && AllOf(a, legal) && AllOf(b, legal) && Joined(a, spell) == Joined(b, spell)
    ensures a == b
  {
    assert Joined(a, spell) + [] == Joined(b, spell);
    var more := Continues(a, [], b, legal, spell);
    JoinedSize(more, legal, spell);
    assert a + [] == a;
  }

  lemma JoinedSize<T(!new), E(!new)>(items: seq<T>, legal: T -> bool, spell: T -> seq<E>)
    requires Readable(legal, spell) && AllOf(items, legal)
    ensures |Joined(items, spell)| >= if items == [] then 0 else 1
  {
    if items != [] {
      assert legal(items[|items| - 1]);
    }
  }

  lemma SomethingBegins<T(!new), E(!new)>(items: seq<T>, legal: T -> bool, spell: T -> seq<E>)
    requires items != [] && AllOf(items, legal)
    ensures Begins(Joined(items, spell), items[0], legal, spell)
  {
    JoinedFirst(items, spell);
  }

  /** When no item starts the rest, no list spells the text. */
  lemma NothingSpells<T(!new), E(!new)>(done: seq<T>, rest: seq<E>, items: seq<T>, legal: T -> bool, spell: T -> seq<E>)
    requires Readable(legal, spell) && AllOf(done, legal) && AllOf(items, legal)
    requires rest != [] && NothingBegins(rest, legal, spell)
    ensures Joined(items, spell) != Joined(done, spell) + rest
  {
    if Joined(items, spell) == Joined(done, spell) + rest {
      var more := Continues(done, rest, items, legal, spell);
      SomethingBegins(more, legal, spell);
    }
  }
}
