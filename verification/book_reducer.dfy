/**
 The book-collection reducer: a total, side-effect-free transition from a
 collection of book records and an action to the next collection.
 */
module BookReducer {
  import opened Seqs

  /** One catalog record. The identifier is a JavaScript number holding an integer. */
  datatype Book = Book(id: int, title: string, author: string, year: string)

  /** The four tagged actions of the reducer's action union. */
  datatype Action =
    | AddBook(book: Book)
    | UpdateBook(book: Book)
    | DeleteBook(id: int)
    | SetBooks(books: seq<Book>)

  /** Some record of `s` carries identifier `id`. */
  predicate HasId(s: seq<Book>, id: int)
  {
    exists i :: 0 <= i < |s| && s[i].id == id
  }

  /** The filter predicate of the delete case: keep records whose id differs. */
  function KeepOthers(id: int): Book -> bool
  {
    (b: Book) => b.id != id
  }

  /** The predicate "record carries identifier `id`". */
  function WithId(id: int): Book -> bool
  {
    (b: Book) => b.id == id
  }

  /** How many records of `s` carry identifier `id`. */
  function Count(s: seq<Book>, id: int): nat
  {
    CountWhere(s, WithId(id))
  }

  /** Some record carries the identifier exactly when its count is positive. */
  lemma {:induction false} CountPositiveIffPresent(s: seq<Book>, id: int)
    ensures Count(s, id) > 0 <==> HasId(s, id)
  {
    if |s| > 0 {
      CountPositiveIffPresent(s[1..], id);
      assert forall k :: 1 <= k < |s| ==> s[k] == s[1..][k - 1];
      if HasId(s[1..], id) {
        var k :| 0 <= k < |s[1..]| && s[1..][k].id == id;
        assert s[k + 1].id == id;
      }
    }
  }

  /** The update case: every record whose id equals `b.id` becomes `b`. */
  function ReplaceById(s: seq<Book>, b: Book): (r: seq<Book>)
    ensures |r| == |s|
    ensures forall i :: 0 <= i < |s| ==> r[i] == (if s[i].id == b.id then b else s[i])
  {
    if |s| == 0 then []
    else [if s[0].id == b.id then b else s[0]] + ReplaceById(s[1..], b)
  }

  /** The reducer as written. `SetBooks` has no case of its own and falls through to
      the default branch, so it returns the prior collection. Only `AddBook` grows
      the collection. */
  function Reduce(s: seq<Book>, a: Action): (r: seq<Book>)
    ensures a.AddBook? ==> |r| == |s| + 1
    ensures a.UpdateBook? || a.SetBooks? ==> |r| == |s|
    ensures a.DeleteBook? ==> |r| <= |s|
  {
    match a
    case AddBook(b) => s + [b]
    case UpdateBook(b) => ReplaceById(s, b)
    case DeleteBook(id) => Filter(s, KeepOthers(id))
    case SetBooks(_) => s
  }

  /** Adding appends at the end, keeps every earlier record at its index, and does
      not check that the identifier is new. */
  lemma AddAppends(s: seq<Book>, b: Book)
    ensures |Reduce(s, AddBook(b))| == |s| + 1
    ensures Reduce(s, AddBook(b))[|s|] == b
    ensures forall i :: 0 <= i < |s| ==> Reduce(s, AddBook(b))[i] == s[i]
    ensures Count(Reduce(s, AddBook(b)), b.id) == Count(s, b.id) + 1
  {
    CountAppend(s, b, b.id);
  }

  /** Appending one record raises the count of its identifier by one. */
  lemma {:induction false} CountAppend(s: seq<Book>, b: Book, id: int)
    ensures Count(s + [b], id) == Count(s, id) + (if b.id == id then 1 else 0)
  {
    if |s| > 0 {
      CountAppend(s[1..], b, id);
      assert (s + [b])[1..] == s[1..] + [b];
    }
  }

  /** Updating preserves length; every index whose id matches holds the new record,
      every other index is unchanged. */
  lemma UpdateReplacesEveryMatch(s: seq<Book>, b: Book)
    ensures |Reduce(s, UpdateBook(b))| == |s|
    ensures forall i :: 0 <= i < |s| && s[i].id == b.id ==> Reduce(s, UpdateBook(b))[i] == b
    ensures forall i :: 0 <= i < |s| && s[i].id != b.id ==> Reduce(s, UpdateBook(b))[i] == s[i]
  {
  }

  /** Updating with an identifier no record carries changes nothing: no insertion. */
  lemma UpdateAbsentIsIdentity(s: seq<Book>, b: Book)
    requires !HasId(s, b.id)
    ensures Reduce(s, UpdateBook(b)) == s
  {
    var r := Reduce(s, UpdateBook(b));
    assert forall i :: 0 <= i < |s| ==> r[i] == s[i];
  }

  /** Applying the same update twice is applying it once. */
  lemma UpdateIdempotent(s: seq<Book>, b: Book)
    ensures Reduce(Reduce(s, UpdateBook(b)), UpdateBook(b)) == Reduce(s, UpdateBook(b))
  {
    var r := Reduce(s, UpdateBook(b));
    var rr := Reduce(r, UpdateBook(b));
    assert forall i :: 0 <= i < |r| ==> rr[i] == r[i];
  }

  /** Deleting removes every record with the identifier, keeps every other record in
      its original relative order and with its multiplicity, and shortens the
      collection by exactly the number of matches. */
  lemma DeleteRemovesEveryMatch(s: seq<Book>, id: int)
    ensures !HasId(Reduce(s, DeleteBook(id)), id)
    ensures Subseq(Reduce(s, DeleteBook(id)), s)
    ensures forall x: Book :: multiset(Reduce(s, DeleteBook(id)))[x] == if x.id == id then 0 else multiset(s)[x]
    ensures |Reduce(s, DeleteBook(id))| == |s| - Count(s, id)
  {
    FilterIsSubseq(s, KeepOthers(id));
    forall x: Book
      ensures multiset(Reduce(s, DeleteBook(id)))[x] == if x.id == id then 0 else multiset(s)[x]
    {
      FilterMultiplicity(s, KeepOthers(id), x);
    }
    FilterLength(s, KeepOthers(id));
    CountComplement(s, WithId(id), KeepOthers(id));
  }

  /** Deleting an identifier no record carries returns the collection unchanged. */
  lemma DeleteAbsentIsIdentity(s: seq<Book>, id: int)
    requires !HasId(s, id)
    ensures Reduce(s, DeleteBook(id)) == s
  {
    FilterAllPass(s, KeepOthers(id));
  }

  /** Deleting the same identifier twice is deleting it once. */
  lemma DeleteIdempotent(s: seq<Book>, id: int)
    ensures Reduce(Reduce(s, DeleteBook(id)), DeleteBook(id)) == Reduce(s, DeleteBook(id))
  {
    FilterIdempotent(s, KeepOthers(id));
  }

  /** `SetBooks` hits the default branch: the prior collection survives and the
      supplied records are dropped. */
  lemma SetBooksIsIgnored(s: seq<Book>, t: seq<Book>)
    ensures Reduce(s, SetBooks(t)) == s
    ensures Reduce(s, SetBooks(t)) == t <==> s == t
  {
  }

  /** A concrete witness that `SetBooks` does not replace the collection: loading one
      record into the empty collection leaves it empty. */
  lemma SetBooksDoesNotReplace(b: Book)
    ensures Reduce([], SetBooks([b])) == []
    ensures Reduce([], SetBooks([b])) != [b]
  {
  }

  /** The reducer with a `SetBooks` case that replaces the collection wholesale, as
      the initial load expects. */
  function ReduceIntended(s: seq<Book>, a: Action): (r: seq<Book>)
    ensures a.SetBooks? ==> r == a.books
    ensures !a.SetBooks? ==> r == Reduce(s, a)
  {
    match a
    case SetBooks(t) => t
    case _ => Reduce(s, a)
  }

  /** The two reducers differ exactly on `SetBooks` actions whose records differ from
      the prior collection. */
  lemma IntendedDiffersOnlyOnSetBooks(s: seq<Book>, a: Action)
    ensures ReduceIntended(s, a) != Reduce(s, a) <==> a.SetBooks? && a.books != s
  {
  }

  /** Folding a sequence of actions over a collection, left to right. */
  function ReduceAll(s: seq<Book>, acts: seq<Action>): seq<Book>
    decreases |acts|
  {
    if |acts| == 0 then s else ReduceAll(Reduce(s, acts[0]), acts[1..])
  }

  /** The number of `AddBook` actions in `acts`. */
  function AddCount(acts: seq<Action>): nat
  {
    if |acts| == 0 then 0 else (if acts[0].AddBook? then 1 else 0) + AddCount(acts[1..])
  }

  /** Only `AddBook` grows the collection, so after any run of actions the collection
      is at most as long as it started plus the number of additions. */
  lemma {:induction false} ReduceAllLength(s: seq<Book>, acts: seq<Action>)
    ensures |ReduceAll(s, acts)| <= |s| + AddCount(acts)
    decreases |acts|
  {
    if |acts| > 0 {
      ReduceAllLength(Reduce(s, acts[0]), acts[1..]);
    }
  }

  /** A run with no `AddBook` action never grows the collection. */
  lemma NoAddNeverGrows(s: seq<Book>, acts: seq<Action>)
    requires forall i :: 0 <= i < |acts| ==> !acts[i].AddBook?
    ensures |ReduceAll(s, acts)| <= |s|
  {
    NoAddCountZero(acts);
    ReduceAllLength(s, acts);
  }

  lemma {:induction false} NoAddCountZero(acts: seq<Action>)
    requires forall i :: 0 <= i < |acts| ==> !acts[i].AddBook?
    ensures AddCount(acts) == 0
  {
    if |acts| > 0 {
      NoAddCountZero(acts[1..]);
    }
  }

  /** Deleting record 1 from a two-record collection leaves the other record. */
  lemma DeleteScenario()
    ensures Reduce([Book(1, "A", "X", "2000"), Book(2, "B", "Y", "2001")], DeleteBook(1))
         == [Book(2, "B", "Y", "2001")]
  {
    var s := [Book(1, "A", "X", "2000"), Book(2, "B", "Y", "2001")];
    assert s[1..] == [Book(2, "B", "Y", "2001")];
    assert s[1..][1..] == [];
  }
}
