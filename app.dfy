/** The upload folder as the web application sees it: an object whose
    contents the upload and delete handlers change in place, and whose
    listing the index page shows newest first. */
module App {
  import opened Uploads
  import opened Listing
  import opened Handlers

  /** The record the listing builds for one stored file: its name, its size
      in bytes and its formatted creation time. */
  function RecordOf(name: string, file: StoredFile): (r: Record)
  {
    Record(name, |file.data|, file.ctime)
  }

  /** The records of the listed names in listing order, before sorting.
      Each describes the stored file of its name; for a listing of the
      folder there is exactly one record per stored file. */
  function ListingRecords(listing: seq<string>, store: Store): (r: seq<Record>)
    requires forall k :: 0 <= k < |listing| ==> listing[k] in store
    ensures forall k :: 0 <= k < |r| ==> r[k].name in store && r[k] == RecordOf(r[k].name, store[r[k].name])
    ensures IsListing(listing, store) ==>
      && (forall n :: n in store <==> exists k :: 0 <= k < |r| && r[k].name == n)
      && (forall i, j :: 0 <= i < j < |r| ==> r[i].name != r[j].name)
  {
    var r := seq(|listing|, k requires 0 <= k < |listing| => RecordOf(listing[k], store[listing[k]]));
    assert forall n :: n in listing ==> exists k :: 0 <= k < |listing| && listing[k] == n && r[k].name == n;
    r
  }

  /** What the directory listing of the folder returns: every stored name
      exactly once, in an order the file system chooses. */
  predicate IsListing(listing: seq<string>, store: Store)
  {
    && (forall k :: 0 <= k < |listing| ==> listing[k] in store)
    && (forall n :: n in store ==> n in listing)
    && (forall i, j :: 0 <= i < j < |listing| ==> listing[i] != listing[j])
  }

  /** A listing has exactly as many names as the folder has files. */
  lemma {:induction false} ListingSize(listing: seq<string>, store: Store)
    requires IsListing(listing, store)
    ensures |listing| == |store|
  {
    if listing == [] {
      assert store.Keys == {};
    } else {
      var last := listing[|listing| - 1];
      var prefix := listing[..|listing| - 1];
      var rest := map n | n in store && n != last :: store[n];
      forall n | n in rest
        ensures n in prefix
      {
        var k :| 0 <= k < |listing| && listing[k] == n;
        assert prefix[k] == n;
      }
      ListingSize(prefix, rest);
      assert store.Keys == rest.Keys + {last};
    }
  }

  class UploadFolder {
    /** Every file in the folder, by name. */
    var contents: Store

    /** The folder as found at start-up (created empty when missing). */
    constructor (initial: Store)
      ensures contents == initial
    {
      contents := initial;
    }

    /** The POST branch of the index page. */
    method IndexPost(parts: map<string, Part>, now: string) returns (response: UploadResponse)
      modifies this
      ensures Outcome(contents, response) == Upload(old(contents), parts, now)
    {
      if "file" !in parts {
        response := UploadResponse(NoFilePart, BackToRequest);
        return;
      }
      var file := parts["file"];
      if file.filename == "" {
        response := UploadResponse(NoSelectedFile, BackToRequest);
        return;
      }
      if Present(file) && AllowedFile(file.filename) {
        var filename := file.filename;
        contents := contents[filename := StoredFile(file.data, now)];
        response := UploadResponse(Uploaded(filename), ToIndex);
      } else {
        response := UploadResponse(TypeNotAllowed, BackToRequest);
      }
    }

    /** The delete endpoint. */
    method DeleteFile(filename: string) returns (response: DeleteResponse)
      modifies this
      ensures Outcome(contents, response) == Delete(old(contents), filename)
    {
      if filename in contents {
        contents := contents - {filename};
        response := DeleteResponse(true, 200, Deleted(filename));
        return;
      }
      response := DeleteResponse(false, 404, FileNotFound);
    }

    /** The listing shown on the index page: one record per listed name,
        each describing the stored file of that name, newest first, with
        records of equal date in listing order. */
    method GetFiles(listing: seq<string>) returns (files: seq<Record>)
      requires IsListing(listing, contents)
      ensures |files| == |listing| == |contents|
      ensures multiset(files) == multiset(ListingRecords(listing, contents))
      ensures forall r :: r in files ==> r.name in contents && r == RecordOf(r.name, contents[r.name])
      ensures forall n :: n in contents <==> exists r :: r in files && r.name == n
      ensures NewestFirst(files)
      ensures forall d :: WithDate(files, d) == WithDate(ListingRecords(listing, contents), d)
    {
      files := [];
      var i := 0;
      while i < |listing|
        invariant 0 <= i <= |listing|
        invariant files == ListingRecords(listing[..i], contents)
      {
        var filename := listing[i];
        var stat := contents[filename];
        files := files + [Record(filename, |stat.data|, stat.ctime)];
        i := i + 1;
      }
      assert listing[..i] == listing;
      ListingSize(listing, contents);
      ghost var unsorted := files;
      files := SortNewestFirst(files);
      SortIsNewestFirst(unsorted);
      forall d
        ensures WithDate(files, d) == WithDate(unsorted, d)
      {
        SortIsStable(unsorted, d);
      }
      forall r | r in files
        ensures r.name in contents && r == RecordOf(r.name, contents[r.name])
      {
        assert r in multiset(unsorted);
      }
      forall n | n in contents
        ensures exists r :: r in files && r.name == n
      {
        var k :| 0 <= k < |unsorted| && unsorted[k].name == n;
        assert unsorted[k] in multiset(files);
      }
    }
  }
}
