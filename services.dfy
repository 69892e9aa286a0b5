/**
 * `GoogleServices` (utils.py:21-286) as an object over the Drive and Docs state it changes.
 * Each method is proved against the function in module Drive that states its effect.
 */
module Services {
  import opened Wrappers
  import opened Naming
  import opened Drive

  class GoogleServices {
    // The remote state the service account reads and changes.
    var files: seq<Entry>
    var nextId: FileId
    var perms: set<Permission>
    var bodies: map<FileId, string>

    /** The whole state, as a value. */
    function State(): Store
      reads this
    {
      Store(files, nextId, perms, bodies)
    }

    ghost predicate Valid()
      reads this
    {
      Drive.Valid(State())
    }

    /** A service bound to the given Drive state; credential resolution is not modelled. */
    constructor (initial: Store)
      requires Drive.Valid(initial)
      ensures Valid() && State() == initial
    {
      files, nextId, perms, bodies := initial.files, initial.nextId, initial.perms, initial.bodies;
    }

    /** `find_file_in_drive`: the first untrashed document of that name, or None. */
    function FindFileInDrive(name: string): (r: Option<FileId>)
      reads this
      ensures r.None? <==> forall i :: 0 <= i < |files| ==> !Listed(files[i], name, Document)
      ensures r.Some? ==> exists i :: 0 <= i < |files| && files[i].id == r.value && Listed(files[i], name, Document)
                                      && forall j :: 0 <= j < i ==> !Listed(files[j], name, Document)
    {
      FirstListedSpec(files, name, Document);
      Find(files, name, Document)
    }

    /** `find_folder_in_drive`: the first untrashed folder of that name, or None. */
    function FindFolderInDrive(name: string): (r: Option<FileId>)
      reads this
      ensures r.None? <==> forall i :: 0 <= i < |files| ==> !Listed(files[i], name, Folder)
      ensures r.Some? ==> exists i :: 0 <= i < |files| && files[i].id == r.value && Listed(files[i], name, Folder)
                                      && forall j :: 0 <= j < i ==> !Listed(files[j], name, Folder)
    {
      FirstListedSpec(files, name, Folder);
      Find(files, name, Folder)
    }

    /** `create_folder`: a new folder with no parent, under a fresh id. */
    method CreateFolder(name: string) returns (id: FileId)
      requires Valid()
      modifies this
      ensures Valid()
      ensures Outcome(State(), id) == Drive.CreateFolder(old(State()), name)
      ensures id !in Ids(old(files)) && files == old(files) + [Entry(id, name, Folder, [], false)]
    {
      CreateFresh(State(), name, Folder, []);
      id := nextId;
      files := files + [Entry(id, name, Folder, [], false)];
      nextId := nextId + 1;
    }

    /** `create_doc`: a new document, inside `folderId` when given, with an empty body. */
    method CreateDoc(title: string, folderId: Option<FileId>) returns (id: FileId)
      requires Valid()
      modifies this
      ensures Valid()
      ensures Outcome(State(), id) == Drive.CreateDoc(old(State()), title, folderId)
      ensures id !in Ids(old(files)) && id in bodies && bodies[id] == "\n"
    {
      var parents := if folderId.Some? then [folderId.value] else [];
      CreateFresh(State(), title, Document, parents);
      id := nextId;
      files := files + [Entry(id, title, Document, parents, false)];
      bodies := bodies[id := "\n"];
      nextId := nextId + 1;
    }

    /** `share_file`: grant `email` the `role` on `fileId`. */
    method ShareFile(fileId: FileId, email: string, role: string := "writer")
      modifies this`perms
      ensures State() == Share(old(State()), fileId, email, role)
    {
      perms := perms + {Permission(fileId, email, role)};
    }

    /** `ensure_doc_exists_and_share`: find the case's document or create it in the customer
        folder, share it with the customer and the administrator, and return its id. */
    method EnsureDocExistsAndShare(caseId: string, customerEmail: string) returns (docId: FileId)
      requires Valid()
      modifies this
      ensures Valid()
      ensures Outcome(State(), docId) == EnsureDoc(old(State()), caseId, customerEmail)
    {
      ghost var s := State();
      EnsureDocValid(s, caseId, customerEmail);
      var docName := DocName(caseId);
      var existing := FindFileInDrive(docName);
      if existing.Some? {
        ShareFile(existing.value, customerEmail);
        ShareFile(existing.value, AdminEmail);
        return existing.value;
      }
      var folderName := if '_' in caseId then FirstSegment(caseId) else caseId;
      var folderId := FindFolderInDrive(folderName);
      var folder: FileId;
      if folderId.None? {
        folder := CreateFolder(folderName);
      } else {
        folder := folderId.value;
      }
      assert Outcome(State(), folder) == EnsureFolder(s, FolderName(caseId));
      docId := CreateDoc(docName, Some(folder));
      ShareFile(docId, customerEmail);
      ShareFile(docId, AdminEmail);
    }

    /** `append_ad_data_to_doc`: append the ad's block before the final newline of the document
        body and return the block name; reading an unknown document fails and changes nothing. */
    method AppendAdDataToDoc(docId: FileId, ad: AdData) returns (r: Result<string, DocError>)
      requires Valid()
      modifies this`bodies
      ensures Valid()
      ensures r.Failure? <==> docId !in old(bodies)
      ensures r.Failure? ==> bodies == old(bodies)
      ensures r.Success? ==> r.value == BlockName(ad) && State() == AppendAd(old(State()), docId, ad).value
    {
      var blockName := BlockName(ad);
      var text := FormatBlock(ad);
      if docId !in bodies {
        return Failure(DocumentNotFound);
      }
      var body := bodies[docId];
      var lastIndex := EndIndex(body) - 1;
      ghost var before := State();
      ghost var after := before.(bodies := before.bodies[docId := AppendText(body, text)]);
      assert Drive.Valid(after) by { AppendBlockChangesOneBody(before, docId, text); }
      assert AppendAd(before, docId, ad) == Success(after) by { AppendAdSucceeds(before, docId, ad); }
      bodies := bodies[docId := InsertText(body, lastIndex, text)];
      assert State() == after;
      return Success(blockName);
    }
  }

  /** What a caller can count on: provisioning a case twice yields one document id, and the second
      call changes nothing. */
  method ProvisionTwice(g: GoogleServices, caseId: string, customerEmail: string) returns (first: FileId, second: FileId)
    requires g.Valid()
    modifies g
    ensures g.Valid()
    ensures first == second
    ensures Outcome(g.State(), second) == EnsureDoc(old(g.State()), caseId, customerEmail)
  {
    ghost var s := g.State();
    first := g.EnsureDocExistsAndShare(caseId, customerEmail);
    ghost var afterFirst := g.State();
    second := g.EnsureDocExistsAndShare(caseId, customerEmail);
    EnsureDocIdempotent(s, caseId, customerEmail, customerEmail);
    assert g.State() == afterFirst;
  }
}
