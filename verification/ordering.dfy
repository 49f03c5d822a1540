/**
 * The order in which the store returns books for `.sort({ createdAt: -1 })`:
 * every matching document once, newest first. Documents with equal
 * `createdAt` may come in any order, so the handlers take the order the
 * store produced as an input rather than fixing a tie-break.
 */
module Ordering {
  import opened BookModel

  /** No element occurs twice. */
  ghost predicate Distinct<T>(xs: seq<T>) {
    forall i, j :: 0 <= i < j < |xs| ==> xs[i] != xs[j]
  }

  /** `createdAt` never increases along the sequence. */
  ghost predicate NewestFirst(order: seq<Book>) {
    forall i, j :: 0 <= i < j < |order| ==> order[i].createdAt >= order[j].createdAt
  }

  /** Dropping the head keeps a listing free of repeats and newest first. */
  lemma TailOrdered(order: seq<Book>)
    requires order != [] && Distinct(order) && NewestFirst(order)
    ensures Distinct(order[1..]) && NewestFirst(order[1..])
  {
    var tail := order[1..];
    forall i, j | 0 <= i < j < |tail| ensures tail[i] != tail[j] && tail[i].createdAt >= tail[j].createdAt {
      assert tail[i] == order[i + 1] && tail[j] == order[j + 1];
    }
  }

  /** A post newer than, and different from, everything in a listing can go in front of it. */
  lemma PrependOrdered(b: Book, rest: seq<Book>)
    requires Distinct(rest) && NewestFirst(rest)
    requires forall c :: c in rest ==> c != b && c.createdAt <= b.createdAt
    ensures Distinct([b] + rest) && NewestFirst([b] + rest)
  {
    var r := [b] + rest;
    forall i, j | 0 <= i < j < |r| ensures r[i] != r[j] && r[i].createdAt >= r[j].createdAt {
      assert r[j] == rest[j - 1] && r[j] in rest;
      if i > 0 {
        assert r[i] == rest[i - 1];
      }
    }
  }

  /** The head of a listing is newer than, and different from, everything after it. */
  lemma HeadIsNewest(order: seq<Book>)
    requires order != [] && Distinct(order) && NewestFirst(order)
    ensures forall c :: c in order[1..] ==> c != order[0] && c.createdAt <= order[0].createdAt
  {
    forall c | c in order[1..] ensures c != order[0] && c.createdAt <= order[0].createdAt {
      var k :| 0 <= k < |order| - 1 && order[1..][k] == c;
      assert order[k + 1] == c;
    }
  }

  /** `order` lists exactly the documents of `docs`, each once, newest first. */
  ghost predicate IsNewestFirst(docs: set<Book>, order: seq<Book>) {
    && Distinct(order)
    && (forall b :: b in order <==> b in docs)
    && NewestFirst(order)
  }

  /** Every non-empty set of books has a newest one. */
  lemma {:induction false} NewestExists(docs: set<Book>)
    requires docs != {}
    ensures exists b :: NewestIn(b, docs)
    decreases |docs|
  {
    var x :| x in docs;
    if docs == {x} {
      assert NewestIn(x, docs);
    } else {
      var rest := docs - {x};
      NewestExists(rest);
      var y :| NewestIn(y, rest);
      var b := if x.createdAt <= y.createdAt then y else x;
      forall c | c in docs ensures c.createdAt <= b.createdAt {
        if c != x {
          assert c in rest;
        }
      }
      assert NewestIn(b, docs);
    }
  }

  /** `b` is one of `docs` and no document of `docs` is newer. */
  ghost predicate NewestIn(b: Book, docs: set<Book>) {
    b in docs && forall c :: c in docs ==> c.createdAt <= b.createdAt
  }

  /** Putting a book no older than any listed one in front of a listing keeps it newest first. */
  lemma PrependNewest(b: Book, rest: set<Book>, tail: seq<Book>)
    requires IsNewestFirst(rest, tail)
    requires b !in rest
    requires forall c :: c in rest ==> c.createdAt <= b.createdAt
    ensures IsNewestFirst(rest + {b}, [b] + tail)
  {
    var order := [b] + tail;
    assert forall c :: c in order <==> c in rest + {b} by {
      forall c ensures c in order <==> c in rest + {b} {
        assert c in order <==> c == b || c in tail;
      }
    }
    assert Distinct(order) by {
      forall i, j | 0 <= i < j < |order| ensures order[i] != order[j] {
        assert order[j] == tail[j - 1];
        if i == 0 {
          assert order[j] in rest;
        } else {
          assert order[i] == tail[i - 1];
        }
      }
    }
    assert NewestFirst(order) by {
      forall i, j | 0 <= i < j < |order| ensures order[i].createdAt >= order[j].createdAt {
        assert order[j] == tail[j - 1];
        assert order[j] in rest;
        if i > 0 {
          assert order[i] == tail[i - 1];
        }
      }
    }
  }

  /** Whatever the store holds, a newest-first listing of it exists. */
  lemma {:induction false} NewestFirstExists(docs: set<Book>)
    ensures exists order :: IsNewestFirst(docs, order)
    decreases |docs|
  {
    if docs == {} {
      assert IsNewestFirst(docs, []);
    } else {
      NewestExists(docs);
      var b :| NewestIn(b, docs);
      var rest := docs - {b};
      NewestFirstExists(rest);
      var tail :| IsNewestFirst(rest, tail);
      PrependNewest(b, rest, tail);
      assert rest + {b} == docs;
    }
  }

  /** A newest-first listing has exactly as many entries as the set it lists. */
  lemma {:induction false} ListingLength(docs: set<Book>, order: seq<Book>)
    requires IsNewestFirst(docs, order)
    ensures |order| == |docs|
    decreases |order|
  {
    if order != [] {
      var rest := docs - {order[0]};
      var tail := order[1..];
      assert order[0] in docs;
      assert forall c :: c in tail <==> c in rest by {
        forall c ensures c in tail <==> c in rest {
          if c in tail {
            var k :| 0 <= k < |tail| && tail[k] == c;
            assert order[k + 1] == c;
          }
          assert c in order <==> c == order[0] || c in tail by {
            assert order == [order[0]] + tail;
          }
        }
      }
      assert Distinct(tail) by {
        forall i, j | 0 <= i < j < |tail| ensures tail[i] != tail[j] {
          assert tail[i] == order[i + 1] && tail[j] == order[j + 1];
        }
      }
      assert NewestFirst(tail) by {
        forall i, j | 0 <= i < j < |tail| ensures tail[i].createdAt >= tail[j].createdAt {
          assert tail[i] == order[i + 1] && tail[j] == order[j + 1];
        }
      }
      ListingLength(rest, tail);
    } else {
      assert forall c :: c !in docs by {
        forall c ensures c !in docs {
          assert c !in order;
        }
      }
      assert docs == {};
    }
  }

  /** In a well-formed store distinct keys hold distinct documents, so there are as many documents as keys. */
  lemma {:induction false} StoreValuesCount(books: BookStore)
    requires WellFormedBooks(books)
    ensures |books.Values| == |books|
    decreases |books|
  {
    if books != map[] {
      var k :| k in books;
      var rest := books - {k};
      assert WellFormedBooks(rest);
      StoreValuesCount(rest);
      assert rest.Values == books.Values - {books[k]} by {
        forall b ensures b in rest.Values <==> b in books.Values - {books[k]} {
          if b in books.Values && b != books[k] {
            var j :| j in books && books[j] == b;
            assert j != k && j in rest;
          }
          if b in rest.Values {
            var j :| j in rest && rest[j] == b;
            assert b.id == j && books[k].id == k;
          }
        }
      }
      assert books[k] in books.Values;
      assert |rest| == |books| - 1;
    }
  }

  /** The listing of a well-formed store is as long as the store counts documents. */
  lemma ListingCountsStore(books: BookStore, order: seq<Book>)
    requires WellFormedBooks(books)
    requires IsNewestFirst(books.Values, order)
    ensures |order| == |books|
  {
    ListingLength(books.Values, order);
    StoreValuesCount(books);
  }
}
