/** The two request handlers that change the upload folder, as transitions
    on an abstract store that maps each file name to the saved file. Each
    returns the new store together with what the handler answers: the
    flashed message and its category, and the redirect target (upload) or
    the JSON `success` flag and HTTP status (delete). */
module Handlers {
  import opened Uploads

  type Bytes = seq<bv8>

  /** A saved file: its bytes and its creation time, already formatted as
      `%Y-%m-%d %H:%M`. */
  datatype StoredFile = StoredFile(data: Bytes, ctime: string)

  /** The upload folder. */
  type Store = map<string, StoredFile>

  datatype Category = Success | Danger

  /** A message queued with `flash(message, category)`. */
  datatype Flash = Flash(message: string, category: Category)

  /** `redirect(request.url)` or `redirect(url_for('index'))`. */
  datatype Redirect = BackToRequest | ToIndex

  /** One part of a multipart form: the client's file name and the bytes. */
  datatype Part = Part(filename: string, data: Bytes)

  datatype UploadResponse = UploadResponse(flash: Flash, redirect: Redirect)

  /** `jsonify({'success': success})` with the HTTP status it is sent with. */
  datatype DeleteResponse = DeleteResponse(success: bool, status: nat, flash: Flash)

  /** The store after a request, and what the handler answered. */
  datatype Outcome<R> = Outcome(store: Store, response: R)

  const NoFilePart := Flash("No file part", Danger)
  const NoSelectedFile := Flash("No selected file", Danger)
  const TypeNotAllowed := Flash("File type not allowed.", Danger)
  const FileNotFound := Flash("File not found.", Danger)

  function Uploaded(filename: string): (f: Flash)
  {
    Flash("Uploaded " + filename + " successfully!", Success)
  }

  function Deleted(filename: string): (f: Flash)
  {
    Flash("Deleted " + filename + ".", Success)
  }

  /** The truth value of an uploaded part: a part with an empty file name
      is false. */
  predicate Present(file: Part)
  {
    file.filename != ""
  }

  /** A POST to the index page: the `file` part must exist, must have a
      name, and the name must pass `AllowedFile`; then the bytes are saved
      under that name. Every refusal leaves the folder as it was, and a
      save touches no other name. */
  function Upload(store: Store, parts: map<string, Part>, now: string): (r: Outcome<UploadResponse>)
    ensures r.response.flash.category == Success
        <==> "file" in parts && AllowedFile(parts["file"].filename)
    ensures r.response.flash.category == Danger ==> r.store == store && r.response.redirect == BackToRequest
    ensures r.response.flash.category == Success ==>
      var file := parts["file"];
      && r.response.redirect == ToIndex
      && r.response.flash == Uploaded(file.filename)
      && r.store.Keys == store.Keys + {file.filename}
      && r.store[file.filename] == StoredFile(file.data, now)
      && forall n :: n in store && n != file.filename ==> r.store[n] == store[n]
  {
    if "file" !in parts then
      Outcome(store, UploadResponse(NoFilePart, BackToRequest))
    else
      var file := parts["file"];
      if file.filename == "" then
        Outcome(store, UploadResponse(NoSelectedFile, BackToRequest))
      else if Present(file) && AllowedFile(file.filename) then
        Outcome(store[file.filename := StoredFile(file.data, now)],
                UploadResponse(Uploaded(file.filename), ToIndex))
      else
        Outcome(store, UploadResponse(TypeNotAllowed, BackToRequest))
  }

  /** `delete_file`: removes the named file when it is there and answers
      success; otherwise answers failure with status 404 and changes
      nothing. No other file is touched either way. */
  function Delete(store: Store, filename: string): (r: Outcome<DeleteResponse>)
    ensures r.response.success <==> filename in store
    ensures r.response.status == if filename in store then 200 else 404
    ensures r.response.flash == if filename in store then Deleted(filename) else FileNotFound
    ensures r.store.Keys == store.Keys - {filename}
    ensures forall n :: n in r.store ==> r.store[n] == store[n]
  {
    if filename in store then
      Outcome(store - {filename}, DeleteResponse(true, 200, Deleted(filename)))
    else
      Outcome(store, DeleteResponse(false, 404, FileNotFound))
  }

  /** The checks run in a fixed order, and the first one that fails decides
      the message. */
  lemma UploadCheckOrder(store: Store, parts: map<string, Part>, now: string)
    ensures var r := Upload(store, parts, now);
      && (r.response.flash == NoFilePart <==> "file" !in parts)
      && (r.response.flash == NoSelectedFile <==> "file" in parts && parts["file"].filename == "")
      && (r.response.flash == TypeNotAllowed <==>
            "file" in parts && parts["file"].filename != "" && !AllowedFile(parts["file"].filename))
  {
  }

  /** Sending the same upload twice leaves the folder as sending it once. */
  lemma UploadTwice(store: Store, parts: map<string, Part>, now: string)
    ensures var once := Upload(store, parts, now);
      Upload(once.store, parts, now) == once
  {
  }

  /** Deleting a file that was just uploaded succeeds and gives back the
      folder as it was, minus that name. */
  lemma DeleteAfterUpload(store: Store, parts: map<string, Part>, now: string)
    requires "file" in parts && AllowedFile(parts["file"].filename)
    ensures var name := parts["file"].filename;
      var r := Delete(Upload(store, parts, now).store, name);
      r.response.success && r.store == map n | n in store && n != name :: store[n]
  {
  }

  /** A second delete of the same name finds nothing: it answers 404 and
      leaves the folder as the first delete left it. */
  lemma DeleteTwice(store: Store, filename: string)
    ensures var once := Delete(store, filename);
      Delete(once.store, filename) == Outcome(once.store, DeleteResponse(false, 404, FileNotFound))
  {
  }
}
