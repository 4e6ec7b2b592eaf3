/** `FileList`: split the listing into images and other files and decide
    what to render. */
module FileList {
  import opened Base
  import opened Listing

  /** `initialFiles.filter((file) => file.isImage)`. */
  function Images(files: seq<FileItem>): (r: seq<FileItem>)
    ensures forall i :: 0 <= i < |r| ==> Truthy(r[i].isImage)
    ensures |r| <= |files|
  {
    if files == [] then []
    else if Truthy(files[0].isImage) then [files[0]] + Images(files[1..])
    else Images(files[1..])
  }

  /** `initialFiles.filter((file) => !file.isImage)`. */
  function OtherFiles(files: seq<FileItem>): (r: seq<FileItem>)
    ensures forall i :: 0 <= i < |r| ==> !Truthy(r[i].isImage)
    ensures |r| <= |files|
  {
    if files == [] then []
    else if !Truthy(files[0].isImage) then [files[0]] + OtherFiles(files[1..])
    else OtherFiles(files[1..])
  }

  /** One step of each filter: the head is kept by exactly one of them. */
  lemma FiltersCons(x: FileItem, s: seq<FileItem>)
    ensures Images([x] + s) == if Truthy(x.isImage) then [x] + Images(s) else Images(s)
    ensures OtherFiles([x] + s) == if Truthy(x.isImage) then OtherFiles(s) else [x] + OtherFiles(s)
  {
    assert ([x] + s)[0] == x && ([x] + s)[1..] == s;
  }

  /** Every record lands in exactly one of the two lists, as often as it
      occurs: together the lists are a permutation of the input. */
  lemma {:induction false} PartitionIsPermutation(files: seq<FileItem>)
    ensures multiset(Images(files)) + multiset(OtherFiles(files)) == multiset(files)
    ensures |Images(files)| + |OtherFiles(files)| == |files|
  {
    if files != [] {
      var x := files[0];
      var rest := files[1..];
      PartitionIsPermutation(rest);
      assert files == [x] + rest;
      FiltersCons(x, rest);
      assert multiset(files) == multiset{x} + multiset(rest);
    }
  }

  /** Both filters keep order: filtering a concatenation concatenates the
      filtered parts. */
  lemma {:induction false} ImagesDistribute(a: seq<FileItem>, b: seq<FileItem>)
    ensures Images(a + b) == Images(a) + Images(b)
  {
    if a == [] {
      assert a + b == b;
    } else {
      assert a + b == [a[0]] + (a[1..] + b);
      assert a == [a[0]] + a[1..];
      ImagesDistribute(a[1..], b);
      FiltersCons(a[0], a[1..] + b);
      FiltersCons(a[0], a[1..]);
    }
  }

  lemma {:induction false} OtherFilesDistribute(a: seq<FileItem>, b: seq<FileItem>)
    ensures OtherFiles(a + b) == OtherFiles(a) + OtherFiles(b)
  {
    if a == [] {
      assert a + b == b;
    } else {
      assert a + b == [a[0]] + (a[1..] + b);
      assert a == [a[0]] + a[1..];
      OtherFilesDistribute(a[1..], b);
      FiltersCons(a[0], a[1..] + b);
      FiltersCons(a[0], a[1..]);
    }
  }

  /** A record whose `isImage` is unset counts as another file. */
  lemma UnsetFlagIsOther(f: FileItem)
    requires f.isImage.None?
    ensures Images([f]) == [] && OtherFiles([f]) == [f]
  {
  }

  /** No non-image comes before an image. */
  predicate ImagesFirst(files: seq<FileItem>)
  {
    forall i, j :: 0 <= i < j < |files| ==> Truthy(files[i].isImage) || !Truthy(files[j].isImage)
  }

  /** A listing sorted by `listFiles` has its images first. */
  lemma SortedMeansImagesFirst(files: seq<FileItem>)
    requires Sorted(files)
    ensures ImagesFirst(files)
  {
    forall i, j | 0 <= i < j < |files|
      ensures Truthy(files[i].isImage) || !Truthy(files[j].isImage)
    {
      assert Compare(files[i], files[j]) <= 0;
    }
  }

  /** When images come first, the images are exactly the first `|Images|`
      records and the other files the rest. */
  lemma {:induction false} ImagesFirstSplits(files: seq<FileItem>)
    requires ImagesFirst(files)
    ensures files == Images(files) + OtherFiles(files)
  {
    if files != [] {
      var x := files[0];
      var rest := files[1..];
      assert files == [x] + rest;
      if Truthy(x.isImage) {
        assert ImagesFirst(rest) by {
          forall i, j | 0 <= i < j < |rest|
            ensures Truthy(rest[i].isImage) || !Truthy(rest[j].isImage)
          {
            assert rest[i] == files[i + 1] && rest[j] == files[j + 1];
          }
        }
        ImagesFirstSplits(rest);
        assert Images(files) == [x] + Images(rest);
        assert OtherFiles(files) == OtherFiles(rest);
        assert files == [x] + (Images(rest) + OtherFiles(rest));
      } else {
        assert forall i :: 0 <= i < |files| ==> !Truthy(files[i].isImage) by {
          forall i | 0 < i < |files|
            ensures !Truthy(files[i].isImage)
          {
            assert Truthy(files[0].isImage) || !Truthy(files[i].isImage);
          }
        }
        NoImages(files);
        assert files == [] + files;
      }
    }
  }

  /** For a listing sorted by `listFiles`, the images are exactly its first
      `|Images|` records and the other files the rest. */
  lemma SortedListingSplitsAtImages(files: seq<FileItem>)
    requires Sorted(files)
    ensures files == Images(files) + OtherFiles(files)
  {
    SortedMeansImagesFirst(files);
    ImagesFirstSplits(files);
  }

  lemma {:induction false} NoImages(files: seq<FileItem>)
    requires forall i :: 0 <= i < |files| ==> !Truthy(files[i].isImage)
    ensures Images(files) == [] && OtherFiles(files) == files
  {
    if files != [] {
      NoImages(files[1..]);
    }
  }

  /** What `FileList` renders: the empty state, or one or both sections,
      each with its count badge. */
  datatype View = EmptyState | Sections(images: Option<nat>, otherFiles: Option<nat>)

  function ViewOf(files: seq<FileItem>): (v: View)
    ensures v.EmptyState? <==> files == []
    ensures v.Sections? ==> (v.images.Some? <==> Images(files) != [])
    ensures v.Sections? ==> (v.otherFiles.Some? <==> OtherFiles(files) != [])
    ensures v.Sections? && v.images.Some? ==> v.images.value == |Images(files)|
    ensures v.Sections? && v.otherFiles.Some? ==> v.otherFiles.value == |OtherFiles(files)|
  {
    var images := Images(files);
    var others := OtherFiles(files);
    if |files| == 0 then EmptyState
    else
      Sections(if |images| > 0 then Some(|images|) else None,
               if |others| > 0 then Some(|others|) else None)
  }

  /** A non-empty listing always shows at least one section, and the two
      badges add up to the number of records. */
  lemma {:induction false} SectionsCoverListing(files: seq<FileItem>)
    requires files != []
    ensures ViewOf(files).images.Some? || ViewOf(files).otherFiles.Some?
    ensures (if ViewOf(files).images.Some? then ViewOf(files).images.value else 0)
          + (if ViewOf(files).otherFiles.Some? then ViewOf(files).otherFiles.value else 0) == |files|
  {
    PartitionIsPermutation(files);
  }
}
