/** The object metadata lister (`listFiles`): it drains the store's listing,
    attaches the derived content type and image flag to every entry, and
    orders the records images first, then newest first, with the stable sort
    of `Array.prototype.sort`. */
module Listing {
  import opened Base
  import opened Text
  import opened ContentTypes

  /** One entry of the store's recursive listing. Timestamps are integer
      milliseconds since the epoch. */
  datatype StoreObject = StoreObject(name: string, size: nat, lastModified: int, etag: string)

  /** The store's enumeration: the entries it yielded, in order, and whether it
      then ended normally or failed. */
  datatype Enumeration = Enumeration(objects: seq<StoreObject>, end: Outcome)

  /** `FileItem`. Its `contentType` and `isImage` fields are optional in the
      source's type; `listFiles` always fills them. */
  datatype FileItem = FileItem(
    name: string,
    size: nat,
    lastModified: int,
    etag: string,
    contentType: Option<string>,
    isImage: Option<bool>)

  /** JavaScript truthiness of an optional flag: `undefined` is falsy. */
  predicate Truthy(flag: Option<bool>)
  {
    flag == Some(true)
  }

  /** The record `listFiles` pushes for one store entry. */
  function ToFileItem(obj: StoreObject): (item: FileItem)
    ensures item.name == obj.name && item.size == obj.size
    ensures item.lastModified == obj.lastModified && item.etag == obj.etag
    ensures item.contentType == Some(ContentTypeFromFileName(obj.name))
    ensures item.isImage == Some(IsImageFile(obj.name))
    ensures item.contentType.Some? && item.contentType.value != ""
    ensures item.isImage.Some?
    ensures Truthy(item.isImage) ==> IsImageMime(item.contentType.value)
  {
    var isImage := IsImageFile(obj.name);
    var item := FileItem(obj.name, obj.size, obj.lastModified, obj.etag,
                         Some(ContentTypeFromFileName(obj.name)), Some(isImage));
    if isImage then
      ImageFileHasImageType(obj.name);
      item
    else
      item
  }

  /** The records pushed for a whole enumeration, in enumeration order. */
  function Enriched(objects: seq<StoreObject>): (items: seq<FileItem>)
    ensures |items| == |objects|
    ensures forall i :: 0 <= i < |objects| ==> items[i] == ToFileItem(objects[i])
  {
    MapSeq(ToFileItem, objects)
  }

  /** `f` applied to every element of `s`, in order. */
  function MapSeq<A, B>(f: A -> B, s: seq<A>): (r: seq<B>)
    ensures |r| == |s|
    ensures forall i :: 0 <= i < |s| ==> r[i] == f(s[i])
  {
    seq(|s|, i requires 0 <= i < |s| => f(s[i]))
  }

  lemma MapSeqAppend<A, B>(f: A -> B, s: seq<A>, x: A)
    ensures MapSeq(f, s + [x]) == MapSeq(f, s) + [f(x)]
  {
    var l := MapSeq(f, s + [x]);
    var r := MapSeq(f, s) + [f(x)];
    forall i | 0 <= i < |l|
      ensures l[i] == r[i]
    {
      if i < |s| {
        assert (s + [x])[i] == s[i];
      } else {
        assert (s + [x])[i] == x;
      }
    }
  }

  lemma EnrichedAppend(objects: seq<StoreObject>, obj: StoreObject)
    ensures Enriched(objects + [obj]) == Enriched(objects) + [ToFileItem(obj)]
  {
    MapSeqAppend(ToFileItem, objects, obj);
  }

  /** The sort comparator: an image before a non-image, otherwise the
      difference of the timestamps, newest first. A negative answer puts `a`
      first, a positive one `b`, zero keeps their order. */
  function Compare(a: FileItem, b: FileItem): (r: int)
    ensures r < 0 <==> (Truthy(a.isImage) && !Truthy(b.isImage)) ||
                       (Truthy(a.isImage) == Truthy(b.isImage) && a.lastModified > b.lastModified)
    ensures r > 0 <==> (!Truthy(a.isImage) && Truthy(b.isImage)) ||
                       (Truthy(a.isImage) == Truthy(b.isImage) && a.lastModified < b.lastModified)
  {
    if Truthy(a.isImage) && !Truthy(b.isImage) then -1
    else if !Truthy(a.isImage) && Truthy(b.isImage) then 1
    else b.lastModified - a.lastModified
  }

  /** The two sort keys of a record. */
  function Key(item: FileItem): (bool, int)
  {
    (Truthy(item.isImage), item.lastModified)
  }

  /** The comparator is consistent: antisymmetric, transitive, and it ties
      exactly the records that share both keys. */
  lemma CompareIsConsistent(a: FileItem, b: FileItem, c: FileItem)
    ensures Compare(a, b) == -Compare(b, a)
    ensures Compare(a, b) == 0 <==> Key(a) == Key(b)
    ensures Compare(a, b) <= 0 && Compare(b, c) <= 0 ==> Compare(a, c) <= 0
  {
  }

  /** The order `sort` establishes: no record compares after a later one. */
  ghost predicate Sorted(s: seq<FileItem>)
  {
    forall i, j :: 0 <= i < j < |s| ==> Compare(s[i], s[j]) <= 0
  }

  /** The records of `s` that carry key `k`, in their order in `s`. */
  function WithKey(s: seq<FileItem>, k: (bool, int)): (r: seq<FileItem>)
    ensures |r| <= |s|
    ensures forall x :: x in r ==> x in s && Key(x) == k
  {
    if s == [] then []
    else if Key(s[0]) == k then [s[0]] + WithKey(s[1..], k)
    else WithKey(s[1..], k)
  }

  /** Stability: every group of records that tie under the comparator keeps
      its original order. */
  ghost predicate StableFrom(r: seq<FileItem>, s: seq<FileItem>)
  {
    forall k :: WithKey(r, k) == WithKey(s, k)
  }

  lemma {:induction false} WithKeyAppend(a: seq<FileItem>, b: seq<FileItem>, k: (bool, int))
    ensures WithKey(a + b, k) == WithKey(a, k) + WithKey(b, k)
  {
    if a == [] {
      assert a + b == b;
    } else {
      assert (a + b)[1..] == a[1..] + b;
      WithKeyAppend(a[1..], b, k);
    }
  }

  /** Insert `x` in front of the first record it does not compare after. */
  function Insert(x: FileItem, s: seq<FileItem>): (r: seq<FileItem>)
    ensures multiset(r) == multiset{x} + multiset(s)
  {
    if s == [] then [x]
    else if Compare(x, s[0]) <= 0 then [x] + s
    else
      assert s == [s[0]] + s[1..];
      [s[0]] + Insert(x, s[1..])
  }

  lemma {:induction false} InsertSorted(x: FileItem, s: seq<FileItem>)
    requires Sorted(s)
    ensures Sorted(Insert(x, s))
  {
    if s == [] {
    } else if Compare(x, s[0]) <= 0 {
      forall j | 0 <= j < |s|
        ensures Compare(x, s[j]) <= 0
      {
        CompareIsConsistent(x, s[0], s[j]);
      }
    } else {
      InsertSorted(x, s[1..]);
      var r := Insert(x, s[1..]);
      CompareIsConsistent(s[0], x, x);
      forall j | 0 <= j < |r|
        ensures Compare(s[0], r[j]) <= 0
      {
        assert r[j] in multiset(r);
        if r[j] != x {
          assert r[j] in s[1..];
        }
      }
    }
  }

  /** A record inserted in front of a sequence lands before every record of
      its own key, and does not disturb the other keys. */
  lemma {:induction false} InsertWithKey(x: FileItem, s: seq<FileItem>, k: (bool, int))
    ensures WithKey(Insert(x, s), k) == if Key(x) == k then [x] + WithKey(s, k) else WithKey(s, k)
  {
    if s == [] {
    } else if Compare(x, s[0]) <= 0 {
      assert ([x] + s)[1..] == s;
    } else {
      CompareIsConsistent(x, s[0], s[0]);
      InsertWithKey(x, s[1..], k);
      assert ([s[0]] + Insert(x, s[1..]))[1..] == Insert(x, s[1..]);
    }
  }

  /** `objects.sort(comparator)`: a stable sort by `Compare`, written as an
      insertion sort. Its result is a permutation of the input, sorted, and
      keeps the input order among records that tie. */
  function SortFiles(s: seq<FileItem>): (r: seq<FileItem>)
    ensures multiset(r) == multiset(s)
    ensures Sorted(r)
    ensures StableFrom(r, s)
  {
    if s == [] then []
    else
      var rest := SortFiles(s[1..]);
      InsertSorted(s[0], rest);
      assert s == [s[0]] + s[1..];
      assert forall k :: WithKey(Insert(s[0], rest), k) == WithKey(s, k) by {
        forall k
          ensures WithKey(Insert(s[0], rest), k) == WithKey(s, k)
        {
          InsertWithKey(s[0], rest, k);
        }
      }
      Insert(s[0], rest)
  }

  /** A sorted, stable permutation is unique: any sort that is stable and
      honours `Compare` gives exactly `SortFiles`' result. */
  lemma {:induction false} StableSortIsUnique(s: seq<FileItem>, r: seq<FileItem>)
    requires multiset(r) == multiset(s)
    requires Sorted(r)
    requires StableFrom(r, s)
    ensures r == SortFiles(s)
  {
    var t := SortFiles(s);
    forall k
      ensures WithKey(r, k) == WithKey(t, k)
    {
      assert WithKey(r, k) == WithKey(s, k);
      assert WithKey(t, k) == WithKey(s, k);
    }
    SortedSequencesAgree(r, t);
  }

  /** Sorting a sorted listing changes nothing. */
  lemma {:induction false} SortIsIdempotent(s: seq<FileItem>)
    ensures SortFiles(SortFiles(s)) == SortFiles(s)
  {
    var r := SortFiles(s);
    StableSortIsUnique(r, r);
  }

  lemma {:induction false} SortedSequencesAgree(a: seq<FileItem>, b: seq<FileItem>)
    requires multiset(a) == multiset(b)
    requires Sorted(a) && Sorted(b)
    requires forall k :: WithKey(a, k) == WithKey(b, k)
    ensures a == b
  {
    if a == [] {
      assert |b| == |multiset(b)| == 0;
    } else {
      assert |b| == |multiset(b)| == |multiset(a)| > 0;
      SortedHeadsAgree(a, b);
      assert multiset(a) == multiset{a[0]} + multiset(a[1..]) by {
        assert a == [a[0]] + a[1..];
      }
      assert multiset(b) == multiset{b[0]} + multiset(b[1..]) by {
        assert b == [b[0]] + b[1..];
      }
      assert a[0] == b[0];
      assert multiset(a[1..]) == multiset(a) - multiset{a[0]};
      assert multiset(b[1..]) == multiset(b) - multiset{b[0]};
      forall k' | true
        ensures WithKey(a[1..], k') == WithKey(b[1..], k')
      {
        assert WithKey(a, k') == WithKey(b, k');
        if Key(a[0]) == k' {
          assert WithKey(a, k')[1..] == WithKey(a[1..], k');
          assert WithKey(b, k')[1..] == WithKey(b[1..], k');
        }
      }
      SortedSequencesAgree(a[1..], b[1..]);
    }
  }

  lemma HeadIsLeast(s: seq<FileItem>, x: FileItem)
    requires Sorted(s) && x in s
    ensures Compare(s[0], x) <= 0
  {
    var j :| 0 <= j < |s| && s[j] == x;
    if j == 0 {
      CompareIsConsistent(x, x, x);
    }
  }

  /** Two such sequences start with the same record: both heads carry the
      least key, and the per-key groups agree on their first member. */
  lemma {:induction false} SortedHeadsAgree(a: seq<FileItem>, b: seq<FileItem>)
    requires |a| > 0 && |b| > 0
    requires multiset(a) == multiset(b)
    requires Sorted(a) && Sorted(b)
    requires forall k :: WithKey(a, k) == WithKey(b, k)
    ensures a[0] == b[0]
  {
    assert a[0] in multiset(b) && b[0] in multiset(a);
    HeadIsLeast(b, a[0]);
    HeadIsLeast(a, b[0]);
    CompareIsConsistent(a[0], b[0], b[0]);
    SameKeyHeadsAgree(a, b, Key(a[0]));
  }

  lemma {:induction false} SameKeyHeadsAgree(a: seq<FileItem>, b: seq<FileItem>, k: (bool, int))
    requires |a| > 0 && |b| > 0 && Key(a[0]) == k && Key(b[0]) == k
    requires WithKey(a, k) == WithKey(b, k)
    ensures a[0] == b[0]
  {
    assert WithKey(a, k)[0] == a[0];
    assert WithKey(b, k)[0] == b[0];
  }

  /** Sorted means: every image precedes every non-image, and within each of
      the two groups timestamps do not increase. */
  lemma SortedMeansImagesFirstNewestFirst(s: seq<FileItem>)
    ensures Sorted(s) <==>
      (forall i, j :: 0 <= i < j < |s| ==> !(!Truthy(s[i].isImage) && Truthy(s[j].isImage))) &&
      (forall i, j :: 0 <= i < j < |s| && Truthy(s[i].isImage) == Truthy(s[j].isImage) ==>
         s[i].lastModified >= s[j].lastModified)
  {
  }

  /** `listFiles`: drain the enumeration into an array of records, then sort
      it. Any enumeration error yields the empty listing. Otherwise the result
      is the enriched enumeration, sorted stably: a permutation of it, images
      first and newest first within each group, ties in enumeration order. */
  method ListFiles(listing: Enumeration) returns (files: seq<FileItem>)
    ensures listing.end.Fail? ==> files == []
    ensures listing.end.Pass? ==> files == SortFiles(Enriched(listing.objects))
    ensures listing.end.Pass? ==> multiset(files) == multiset(Enriched(listing.objects))
    ensures listing.end.Pass? ==> Sorted(files) && StableFrom(files, Enriched(listing.objects))
    ensures forall f :: f in files ==> exists o :: o in listing.objects && f == ToFileItem(o)
  {
    var objects: seq<FileItem> := [];
    var i := 0;
    while i < |listing.objects|
      invariant 0 <= i <= |listing.objects|
      invariant objects == Enriched(listing.objects[..i])
    {
      var obj := listing.objects[i];
      assert listing.objects[..i + 1] == listing.objects[..i] + [obj];
      EnrichedAppend(listing.objects[..i], obj);
      objects := objects + [ToFileItem(obj)];
      i := i + 1;
    }
    assert listing.objects[..i] == listing.objects;
    if listing.end.Fail? {
      return [];
    }
    files := SortFiles(objects);
    ListedRecordsComeFromEnumeration(listing.objects);
  }

  /** Every record of a listing is the record of some enumerated entry. */
  lemma ListedRecordsComeFromEnumeration(objects: seq<StoreObject>)
    ensures forall f :: f in SortFiles(Enriched(objects)) ==> exists o :: o in objects && f == ToFileItem(o)
  {
    var items := Enriched(objects);
    forall f | f in SortFiles(items)
      ensures exists o :: o in objects && f == ToFileItem(o)
    {
      assert f in multiset(SortFiles(items));
      assert f in multiset(items);
      var n :| 0 <= n < |items| && items[n] == f;
      assert objects[n] in objects;
    }
  }
}
