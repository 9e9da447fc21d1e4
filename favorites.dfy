/**
 * The favorites list updaters `addFavorite`, `removeFavorite` and the
 * query `isFavorited`, as pure functions of the previous list.
 */
module Favorites {
  import opened Wrappers
  import opened Sequences
  import opened Books

  /** No two entries share a key. */
  ghost predicate UniqueKeys(favs: seq<BookRecord>) {
    forall i, j :: 0 <= i < j < |favs| ==> favs[i].key != favs[j].key
  }

  /** `isFavorited`: some entry carries the key. */
  function IsFavorited(favs: seq<BookRecord>, key: string): bool {
    Exists(favs, (b: BookRecord) => b.key == key)
  }

  /** `addFavorite`: the list itself when an entry with the book's key is found, otherwise the book prepended. */
  function AddFavorite(prev: seq<BookRecord>, book: BookRecord): seq<BookRecord> {
    if Find(prev, (b: BookRecord) => b.key == book.key).Some? then prev else [book] + prev
  }

  /** `removeFavorite`: the entries whose key differs. */
  function RemoveFavorite(prev: seq<BookRecord>, key: string): seq<BookRecord> {
    Filter(prev, (b: BookRecord) => b.key != key)
  }

  /** Membership by key means some entry carries that key. */
  lemma IsFavoritedIff(favs: seq<BookRecord>, key: string)
    ensures IsFavorited(favs, key) <==> exists i :: 0 <= i < |favs| && favs[i].key == key
  {
  }

  /** Adding a book whose key is already present returns the list unchanged. */
  lemma AddFavoriteExisting(prev: seq<BookRecord>, book: BookRecord)
    requires IsFavorited(prev, book.key)
    ensures AddFavorite(prev, book) == prev
  {
  }

  /** Adding a new key puts the book first and keeps every old entry, in order, behind it. */
  lemma AddFavoriteNew(prev: seq<BookRecord>, book: BookRecord)
    requires !IsFavorited(prev, book.key)
    ensures |AddFavorite(prev, book)| == |prev| + 1
    ensures AddFavorite(prev, book)[0] == book
    ensures AddFavorite(prev, book)[1..] == prev
  {
  }

  /** After adding, the book's key is a favorite, and adding it again changes nothing. */
  lemma AddFavoriteThenFavorited(prev: seq<BookRecord>, book: BookRecord)
    ensures IsFavorited(AddFavorite(prev, book), book.key)
    ensures AddFavorite(AddFavorite(prev, book), book) == AddFavorite(prev, book)
  {
    var r := AddFavorite(prev, book);
    if !IsFavorited(prev, book.key) {
      assert r[0].key == book.key;
    }
  }

  /** Adding keeps every other key's membership as it was. */
  lemma AddFavoriteOtherKeys(prev: seq<BookRecord>, book: BookRecord, key: string)
    requires key != book.key
    ensures IsFavorited(AddFavorite(prev, book), key) == IsFavorited(prev, key)
  {
    var r := AddFavorite(prev, book);
    if r != prev {
      assert forall i :: 1 <= i < |r| ==> r[i] == prev[i - 1];
      assert IsFavorited(r, key) ==> exists i :: 1 <= i < |r| && r[i].key == key;
    }
  }

  /** Adding preserves unique keys. */
  lemma AddFavoriteUnique(prev: seq<BookRecord>, book: BookRecord)
    requires UniqueKeys(prev)
    ensures UniqueKeys(AddFavorite(prev, book))
  {
    var r := AddFavorite(prev, book);
    if r != prev {
      assert forall j :: 1 <= j < |r| ==> r[j] == prev[j - 1] && r[j].key != book.key;
    }
  }

  /**
   * Removing keeps exactly the entries whose key differs, in their original
   * relative order, each as often as before.
   */
  lemma RemoveFavoriteKeeps(prev: seq<BookRecord>, key: string, b: BookRecord)
    ensures IsSubsequence(RemoveFavorite(prev, key), prev)
    ensures multiset(RemoveFavorite(prev, key))[b] == if b.key != key then multiset(prev)[b] else 0
  {
    FilterIsSubsequence(prev, (x: BookRecord) => x.key != key);
    FilterCounts(prev, (x: BookRecord) => x.key != key, b);
  }

  /** After removing a key it is no longer a favorite. */
  lemma RemoveFavoriteNotFavorited(prev: seq<BookRecord>, key: string)
    ensures !IsFavorited(RemoveFavorite(prev, key), key)
  {
    var r := RemoveFavorite(prev, key);
    assert forall i :: 0 <= i < |r| ==> r[i] in r;
  }

  /** Removing a key that no entry has leaves the list unchanged. */
  lemma RemoveFavoriteAbsent(prev: seq<BookRecord>, key: string)
    requires !IsFavorited(prev, key)
    ensures RemoveFavorite(prev, key) == prev
  {
    FilterAllPass(prev, (x: BookRecord) => x.key != key);
  }

  /** Removing keeps every other key's membership as it was. */
  lemma RemoveFavoriteOtherKeys(prev: seq<BookRecord>, key: string, other: string)
    requires other != key
    ensures IsFavorited(RemoveFavorite(prev, key), other) == IsFavorited(prev, other)
  {
    var p := (x: BookRecord) => x.key != key;
    var r := RemoveFavorite(prev, key);
    if IsFavorited(prev, other) {
      var i :| 0 <= i < |prev| && prev[i].key == other;
      FilterCounts(prev, p, prev[i]);
      assert prev[i] in multiset(prev);
      assert prev[i] in r;
    } else {
      assert forall i :: 0 <= i < |r| ==> r[i] in r;
    }
  }

  /** Any filter of a list with unique keys has unique keys. */
  lemma {:induction false} FilterUnique(s: seq<BookRecord>, p: BookRecord -> bool)
    requires UniqueKeys(s)
    ensures UniqueKeys(Filter(s, p))
  {
    if s != [] {
      assert UniqueKeys(s[1..]) by {
        assert forall i :: 0 <= i < |s[1..]| ==> s[1..][i] == s[i + 1];
      }
      FilterUnique(s[1..], p);
      if p(s[0]) {
        var t := Filter(s[1..], p);
        var r := Filter(s, p);
        forall j | 1 <= j < |r|
          ensures r[0].key != r[j].key
        {
          assert r[j] == t[j - 1] && t[j - 1] in t;
          var m :| 0 <= m < |s[1..]| && s[1..][m] == t[j - 1];
          assert s[m + 1] == r[j];
        }
        assert forall i, j :: 1 <= i < j < |r| ==> r[i] == t[i - 1] && r[j] == t[j - 1];
      }
    }
  }

  /** Removing preserves unique keys. */
  lemma RemoveFavoriteUnique(prev: seq<BookRecord>, key: string)
    requires UniqueKeys(prev)
    ensures UniqueKeys(RemoveFavorite(prev, key))
  {
    FilterUnique(prev, (x: BookRecord) => x.key != key);
  }
}
