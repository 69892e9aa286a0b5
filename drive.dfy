/**
 * The Drive and Docs state that `GoogleServices` works against (utils.py:134-286), as values:
 * the listed files, the permissions granted on them and the bodies of the documents, with the
 * find, create, share, provision and append steps as functions on that state.
 */
module Drive {
  import opened Wrappers
  import opened Naming

  /** A Drive file id; the service hands out a fresh one for every file it creates. */
  type FileId = nat

  /** The two mime types the code uses: `application/vnd.google-apps.folder` and `...document`. */
  datatype Kind = Folder | Document

  datatype Entry = Entry(id: FileId, name: string, kind: Kind, parents: seq<FileId>, trashed: bool)

  datatype Permission = Permission(file: FileId, email: string, role: string)

  /** The administrator every case document is shared with. */
  const AdminEmail: string := "rhk9903@gmail.com"

  /**
   * What the service account sees: the files in listing order, the id the next created file
   * gets, the permissions granted, and the text of every document body.
   */
  datatype Store = Store(files: seq<Entry>, nextId: FileId, perms: set<Permission>, bodies: map<FileId, string>)

  /** The result of a step that yields a file id. */
  datatype Outcome = Outcome(store: Store, id: FileId)

  function Ids(files: seq<Entry>): set<FileId> {
    set i | 0 <= i < |files| :: files[i].id
  }

  /** A Docs body always ends with the newline that closes its last paragraph. */
  predicate BodyOk(body: string) {
    body != [] && body[|body| - 1] == '\n'
  }

  /** Some listed entry with id `id` is a document. */
  ghost predicate IsDocumentId(files: seq<Entry>, id: FileId) {
    exists i :: 0 <= i < |files| && files[i].id == id && files[i].kind == Document
  }

  /** Ids are distinct and below `nextId`, exactly the documents have a body, and every body is
      well formed. */
  ghost predicate Valid(s: Store) {
    && (forall i :: 0 <= i < |s.files| ==> s.files[i].id < s.nextId)
    && (forall i, j :: 0 <= i < j < |s.files| ==> s.files[i].id != s.files[j].id)
    && (forall id :: id in s.bodies <==> IsDocumentId(s.files, id))
    && (forall id :: id in s.bodies ==> BodyOk(s.bodies[id]))
  }

  lemma IsDocumentIdAppend(files: seq<Entry>, e: Entry, id: FileId)
    ensures IsDocumentId(files + [e], id) <==> IsDocumentId(files, id) || (e.id == id && e.kind == Document)
  {
    var all := files + [e];
    if IsDocumentId(all, id) {
      var i :| 0 <= i < |all| && all[i].id == id && all[i].kind == Document;
      if i < |files| {
        assert files[i] == all[i];
      }
    }
    if IsDocumentId(files, id) {
      var i :| 0 <= i < |files| && files[i].id == id && files[i].kind == Document;
      assert all[i] == files[i];
    }
    if e.id == id && e.kind == Document {
      assert all[|files|] == e;
    }
  }

  /** The query `name = '…' and mimeType = '…' and trashed = false` selects `e`. */
  predicate Listed(e: Entry, name: string, kind: Kind) {
    !e.trashed && e.name == name && e.kind == kind
  }

  /** The place of the first entry the query selects, if any. */
  function FirstListed(files: seq<Entry>, name: string, kind: Kind): (r: Option<nat>)
    ensures r.Some? ==> r.value < |files|
  {
    if files == [] then None
    else if Listed(files[0], name, kind) then Some(0)
    else
      match FirstListed(files[1..], name, kind)
      case None => None
      case Some(i) => Some(i + 1)
  }

  /** The query answers nothing exactly when no entry is selected, and otherwise its first answer
      is the earliest selected entry. */
  lemma {:induction false} FirstListedSpec(files: seq<Entry>, name: string, kind: Kind)
    ensures var r := FirstListed(files, name, kind);
            && (r.None? <==> forall i :: 0 <= i < |files| ==> !Listed(files[i], name, kind))
            && (r.Some? ==> r.value < |files| && Listed(files[r.value], name, kind)
                            && forall j :: 0 <= j < r.value ==> !Listed(files[j], name, kind))
  {
    if files != [] && !Listed(files[0], name, kind) {
      FirstListedSpec(files[1..], name, kind);
      assert forall i :: 1 <= i < |files| ==> files[i] == files[1..][i - 1];
    }
  }

  /** `find_file_in_drive` / `find_folder_in_drive`: the id of `files[0]` of the query's answer,
      that is, of the earliest untrashed entry of that name and kind. */
  function Find(files: seq<Entry>, name: string, kind: Kind): (r: Option<FileId>)
    ensures r.None? <==> forall i :: 0 <= i < |files| ==> !Listed(files[i], name, kind)
    ensures r.Some? ==> exists i :: 0 <= i < |files| && files[i].id == r.value && Listed(files[i], name, kind)
                                    && forall j :: 0 <= j < i ==> !Listed(files[j], name, kind)
  {
    FirstListedSpec(files, name, kind);
    match FirstListed(files, name, kind)
    case None => None
    case Some(i) => Some(files[i].id)
  }

  /** Files listed after a match do not change what a query finds; otherwise the later files decide. */
  lemma {:induction false} FirstListedAppend(files: seq<Entry>, extra: seq<Entry>, name: string, kind: Kind)
    ensures FirstListed(files + extra, name, kind) ==
              match FirstListed(files, name, kind)
              case Some(i) => Some(i)
              case None => match FirstListed(extra, name, kind)
                           case None => None
                           case Some(i) => Some(|files| + i)
  {
    if files != [] {
      FirstListedAppend(files[1..], extra, name, kind);
      assert (files + extra)[1..] == files[1..] + extra;
    } else {
      assert files + extra == extra;
    }
  }

  lemma FindAppend(files: seq<Entry>, extra: seq<Entry>, name: string, kind: Kind)
    ensures Find(files + extra, name, kind) ==
              if Find(files, name, kind).Some? then Find(files, name, kind) else Find(extra, name, kind)
  {
    FirstListedAppend(files, extra, name, kind);
    match FirstListed(files, name, kind)
    case Some(i) =>
      assert (files + extra)[i] == files[i];
    case None =>
      match FirstListed(extra, name, kind)
      case None =>
      case Some(i) =>
        assert (files + extra)[|files| + i] == extra[i];
  }

  /** `files().create(...)` of a new, untrashed file. A new document's body is one empty paragraph. */
  function Create(s: Store, name: string, kind: Kind, parents: seq<FileId>): (r: Outcome)
    ensures r.id == s.nextId && r.store.nextId == s.nextId + 1
  {
    var e := Entry(s.nextId, name, kind, parents, false);
    Outcome(s.(files := s.files + [e], nextId := s.nextId + 1,
               bodies := if kind == Document then s.bodies[s.nextId := "\n"] else s.bodies),
            s.nextId)
  }

  /** A created file gets an id no listed file has, and keeps the store valid. */
  lemma CreateFresh(s: Store, name: string, kind: Kind, parents: seq<FileId>)
    requires Valid(s)
    ensures Valid(Create(s, name, kind, parents).store)
    ensures Create(s, name, kind, parents).id !in Ids(s.files)
    ensures Create(s, name, kind, parents).store.files[..|s.files|] == s.files
  {
    var r := Create(s, name, kind, parents);
    var e := Entry(s.nextId, name, kind, parents, false);
    assert r.store.files == s.files + [e];
    assert r.store.files[..|s.files|] == s.files;
    assert BodyOk("\n");
    forall id ensures id in r.store.bodies <==> IsDocumentId(r.store.files, id) {
      IsDocumentIdAppend(s.files, e, id);
    }
  }

  /** `create_folder`: a folder with no parent. A search for its name then finds the earliest
      folder of that name, which is the new one unless one was listed before. */
  function CreateFolder(s: Store, name: string): (r: Outcome)
    ensures r.store.files == s.files + [Entry(r.id, name, Folder, [], false)]
    ensures r.store.bodies == s.bodies && r.store.perms == s.perms
    ensures Find(r.store.files, name, Folder) ==
              if Find(s.files, name, Folder).Some? then Find(s.files, name, Folder) else Some(r.id)
  {
    var r := Create(s, name, Folder, []);
    FindAppend(s.files, [Entry(r.id, name, Folder, [], false)], name, Folder);
    r
  }

  /** `create_doc`: a document with an empty body, inside `folder` when one is given. A search
      for its title then finds the earliest document of that title, which is the new one unless one
      was listed before. */
  function CreateDoc(s: Store, title: string, folder: Option<FileId>): (r: Outcome)
    ensures r.store.files == s.files + [Entry(r.id, title, Document, if folder.Some? then [folder.value] else [], false)]
    ensures r.store.bodies == s.bodies[r.id := "\n"] && r.store.perms == s.perms
    ensures Find(r.store.files, title, Document) ==
              if Find(s.files, title, Document).Some? then Find(s.files, title, Document) else Some(r.id)
  {
    var parents := if folder.Some? then [folder.value] else [];
    var r := Create(s, title, Document, parents);
    FindAppend(s.files, [Entry(r.id, title, Document, parents, false)], title, Document);
    r
  }

  /** `share_file`: grant `email` the `role` on `file`; granting again changes nothing. */
  function Share(s: Store, file: FileId, email: string, role: string := "writer"): (r: Store)
    ensures r.files == s.files && r.nextId == s.nextId && r.bodies == s.bodies
    ensures r.perms == s.perms + {Permission(file, email, role)}
    ensures Permission(file, email, role) in s.perms ==> r == s
  {
    s.(perms := s.perms + {Permission(file, email, role)})
  }

  /** The two grants that follow both branches: the customer, then the administrator. */
  function ShareWithCustomerAndAdmin(s: Store, file: FileId, customer: string): Store {
    Share(Share(s, file, customer), file, AdminEmail)
  }

  /** The folder a new document of the case goes into: the first one of that name, or a new one.
      Either way a search for the name then finds it, and no document search changes. */
  function EnsureFolder(s: Store, folderName: string): (r: Outcome)
    ensures Find(r.store.files, folderName, Folder) == Some(r.id)
    ensures Find(s.files, folderName, Folder).Some? ==> r.store == s
    ensures forall name :: Find(r.store.files, name, Document) == Find(s.files, name, Document)
    ensures r.store.bodies == s.bodies && r.store.perms == s.perms
  {
    match Find(s.files, folderName, Folder)
    case Some(f) => Outcome(s, f)
    case None =>
      var r := CreateFolder(s, folderName);
      var e := Entry(r.id, folderName, Folder, [], false);
      forall name ensures Find(r.store.files, name, Document) == Find(s.files, name, Document) {
        FindAppend(s.files, [e], name, Document);
        assert !Listed([e][0], name, Document);
      }
      r
  }

  /** `ensure_doc_exists_and_share`: the id of the case's document, created if there is none. A
      search for the case's document name then finds that id, and both the customer and the
      administrator hold a writer grant on it. */
  function EnsureDoc(s: Store, caseId: string, customer: string): (r: Outcome)
    ensures Find(r.store.files, DocName(caseId), Document) == Some(r.id)
    ensures Permission(r.id, customer, "writer") in r.store.perms
    ensures Permission(r.id, AdminEmail, "writer") in r.store.perms
  {
    var docName := DocName(caseId);
    match Find(s.files, docName, Document)
    case Some(existing) => Outcome(ShareWithCustomerAndAdmin(s, existing, customer), existing)
    case None =>
      var folder := EnsureFolder(s, FolderName(caseId));
      var doc := CreateDoc(folder.store, docName, Some(folder.id));
      Outcome(ShareWithCustomerAndAdmin(doc.store, doc.id, customer), doc.id)
  }

  /** The entries of one kind, in listing order. */
  function OfKind(files: seq<Entry>, kind: Kind): (r: seq<Entry>)
    ensures forall i :: 0 <= i < |r| ==> r[i].kind == kind
  {
    if files == [] then []
    else (if files[0].kind == kind then [files[0]] else []) + OfKind(files[1..], kind)
  }

  lemma {:induction false} OfKindAppend(a: seq<Entry>, b: seq<Entry>, kind: Kind)
    ensures OfKind(a + b, kind) == OfKind(a, kind) + OfKind(b, kind)
  {
    if a != [] {
      OfKindAppend(a[1..], b, kind);
      assert (a + b)[1..] == a[1..] + b;
    } else {
      assert a + b == b;
    }
  }

  /** When the case's document exists: its id is returned and only the grants may change. */
  lemma EnsureDocReusesExisting(s: Store, caseId: string, customer: string)
    requires Find(s.files, DocName(caseId), Document).Some?
    ensures var r := EnsureDoc(s, caseId, customer);
            && r.id == Find(s.files, DocName(caseId), Document).value
            && r.store.files == s.files && r.store.nextId == s.nextId && r.store.bodies == s.bodies
  {
  }

  /** The entries a provisioning that found no document adds: exactly one document, named for the
      case, whose only parent is the folder a search for the case's folder name now finds, and one
      folder when none of that name was listed before. */
  predicate AddsOneDocument(s: Store, r: Outcome, docName: string, folderName: string) {
    && |s.files| <= |r.store.files| && r.store.files[..|s.files|] == s.files
    && r.id !in Ids(s.files)
    && Find(r.store.files, folderName, Folder).Some?
    && OfKind(r.store.files[|s.files|..], Document)
         == [Entry(r.id, docName, Document, [Find(r.store.files, folderName, Folder).value], false)]
    && |OfKind(r.store.files[|s.files|..], Folder)| == (if Find(s.files, folderName, Folder).None? then 1 else 0)
    && Find(r.store.files, docName, Document) == Some(r.id)
    && r.store.bodies == s.bodies[r.id := "\n"]
  }

  lemma CreatesOneReusingFolder(s: Store, docName: string, folderName: string, customer: string, f: FileId)
    requires Valid(s)
    requires Find(s.files, docName, Document).None?
    requires Find(s.files, folderName, Folder) == Some(f)
    ensures var doc := CreateDoc(s, docName, Some(f));
            AddsOneDocument(s, Outcome(ShareWithCustomerAndAdmin(doc.store, doc.id, customer), doc.id), docName, folderName)
  {
    var doc := CreateDoc(s, docName, Some(f));
    var docEntry := Entry(doc.id, docName, Document, [f], false);
    assert doc.store.files == s.files + [docEntry];
    assert doc.store.files[|s.files|..] == [docEntry];
    FindAppend(s.files, [docEntry], folderName, Folder);
    FindAppend(s.files, [docEntry], docName, Document);
    assert OfKind([docEntry], Document) == [docEntry];
    assert OfKind([docEntry], Folder) == [];
    CreateFresh(s, docName, Document, [f]);
  }

  /** After a new folder and then a new document are listed, searches for them find them. */
  lemma FindsNewFolderAndDoc(files: seq<Entry>, folderEntry: Entry, docEntry: Entry, folderName: string, docName: string)
    requires Find(files, docName, Document).None? && Find(files, folderName, Folder).None?
    requires folderEntry.kind == Folder && docEntry.kind == Document
    requires Listed(folderEntry, folderName, Folder) && Listed(docEntry, docName, Document)
    ensures Find(files + [folderEntry, docEntry], folderName, Folder) == Some(folderEntry.id)
    ensures Find(files + [folderEntry, docEntry], docName, Document) == Some(docEntry.id)
    ensures OfKind([folderEntry, docEntry], Document) == [docEntry]
    ensures |OfKind([folderEntry, docEntry], Folder)| == 1
  {
    var added := [folderEntry, docEntry];
    FindAppend(files, added, folderName, Folder);
    FindAppend(files, added, docName, Document);
    assert added == [folderEntry] + [docEntry];
    FindAppend([folderEntry], [docEntry], docName, Document);
    OfKindAppend([folderEntry], [docEntry], Document);
    OfKindAppend([folderEntry], [docEntry], Folder);
  }

  lemma CreatesOneWithNewFolder(s: Store, docName: string, folderName: string, customer: string)
    requires Valid(s)
    requires Find(s.files, docName, Document).None?
    requires Find(s.files, folderName, Folder).None?
    ensures var folder := CreateFolder(s, folderName);
            var doc := CreateDoc(folder.store, docName, Some(folder.id));
            AddsOneDocument(s, Outcome(ShareWithCustomerAndAdmin(doc.store, doc.id, customer), doc.id), docName, folderName)
  {
    var folder := CreateFolder(s, folderName);
    var doc := CreateDoc(folder.store, docName, Some(folder.id));
    var folderEntry := Entry(s.nextId, folderName, Folder, [], false);
    var docEntry := Entry(doc.id, docName, Document, [s.nextId], false);
    var added := [folderEntry, docEntry];
    assert doc.store.files == s.files + added;
    assert doc.store.files[|s.files|..] == added;
    FindsNewFolderAndDoc(s.files, folderEntry, docEntry, folderName, docName);
    CreateFresh(s, folderName, Folder, []);
    CreateFresh(folder.store, docName, Document, [folder.id]);
  }

  /** When the case's document does not exist, provisioning adds exactly one document (and at most
      one folder), as `AddsOneDocument` states. */
  lemma EnsureDocCreatesOne(s: Store, caseId: string, customer: string)
    requires Valid(s)
    requires Find(s.files, DocName(caseId), Document).None?
    ensures AddsOneDocument(s, EnsureDoc(s, caseId, customer), DocName(caseId), FolderName(caseId))
  {
    var docName, folderName := DocName(caseId), FolderName(caseId);
    match Find(s.files, folderName, Folder)
    case Some(f) => CreatesOneReusingFolder(s, docName, folderName, customer, f);
    case None => CreatesOneWithNewFolder(s, docName, folderName, customer);
  }

  /** Provisioning keeps the store valid. */
  lemma EnsureDocValid(s: Store, caseId: string, customer: string)
    requires Valid(s)
    ensures Valid(EnsureDoc(s, caseId, customer).store)
  {
    var folderName := FolderName(caseId);
    if Find(s.files, DocName(caseId), Document).None? {
      var folder := EnsureFolder(s, folderName);
      if Find(s.files, folderName, Folder).None? {
        CreateFresh(s, folderName, Folder, []);
      }
      CreateFresh(folder.store, DocName(caseId), Document, [folder.id]);
    }
  }

  /** A second provisioning of the same case returns the same document and changes nothing at all;
      for another customer email it only adds that customer's grant. */
  lemma EnsureDocIdempotent(s: Store, caseId: string, customer: string, customer2: string)
    requires Valid(s)
    ensures var r1 := EnsureDoc(s, caseId, customer);
            var r2 := EnsureDoc(r1.store, caseId, customer2);
            && r2.id == r1.id
            && r2.store.files == r1.store.files && r2.store.nextId == r1.store.nextId
            && r2.store.bodies == r1.store.bodies
            && r2.store.perms == r1.store.perms + {Permission(r1.id, customer2, "writer")}
            && (customer2 == customer ==> r2 == r1)
  {
    var r1 := EnsureDoc(s, caseId, customer);
    if Find(s.files, DocName(caseId), Document).None? {
      EnsureDocCreatesOne(s, caseId, customer);
    }
    assert Find(r1.store.files, DocName(caseId), Document) == Some(r1.id);
  }

  /** `content[-1]['endIndex']`: Docs counts the section break at index 0, so the body's end index
      is one past its length. Docs indices count UTF-16 code units while this model counts one per
      character, so the two agree for text inside the Basic Multilingual Plane. Either way,
      `endIndex - 1` is the index of the body's final newline. */
  function EndIndex(body: string): (r: int)
    ensures r >= 1
    ensures BodyOk(body) ==> 1 <= r - 1 <= |body| && body[r - 2] == '\n'
  {
    |body| + 1
  }

  /** Docs `insertText` at `index`: the text goes before the character at that index, and the
      characters on either side are kept. */
  function InsertText(body: string, index: int, text: string): (r: string)
    requires 1 <= index <= |body| + 1
    ensures |r| == |body| + |text|
    ensures r[..index - 1] == body[..index - 1]
    ensures r[index - 1..index - 1 + |text|] == text
    ensures r[index - 1 + |text|..] == body[index - 1..]
  {
    var r := body[..index - 1] + text + body[index - 1..];
    assert r == body[..index - 1] + (text + body[index - 1..]);
    r
  }

  /** The edit of `append_ad_data_to_doc`: insert at `endIndex - 1`, which keeps the body well
      formed and puts the text just before the final newline. */
  function AppendText(body: string, text: string): (r: string)
    requires BodyOk(body)
    ensures BodyOk(r) && |r| == |body| + |text|
  {
    InsertText(body, EndIndex(body) - 1, text)
  }

  /** The append keeps every character before the final newline, adds exactly `text`, and leaves
      the body ending in its newline. */
  lemma AppendKeepsBody(body: string, text: string)
    requires BodyOk(body)
    ensures var r := AppendText(body, text);
            && |r| == |body| + |text|
            && r[..|body| - 1] == body[..|body| - 1]
            && r[|body| - 1..|body| - 1 + |text|] == text
            && r[|r| - 1] == '\n'
            && BodyOk(r)
            && r == body[..|body| - 1] + text + "\n"
  {
    var r := AppendText(body, text);
    assert body[|body| - 1..] == "\n";
    assert r == body[..|body| - 1] + text + "\n";
  }

  function Concat(blocks: seq<string>): string {
    if blocks == [] then "" else Concat(blocks[..|blocks| - 1]) + blocks[|blocks| - 1]
  }

  /** Appending several blocks one after another. */
  function AppendAll(body: string, blocks: seq<string>): (r: string)
    requires BodyOk(body)
    ensures BodyOk(r)
    decreases |blocks|
  {
    if blocks == [] then body
    else
      var before := AppendAll(body, blocks[..|blocks| - 1]);
      AppendKeepsBody(before, blocks[|blocks| - 1]);
      AppendText(before, blocks[|blocks| - 1])
  }

  lemma AppendAfter(before: string, head: string, text: string, last: string)
    requires before == head + text + "\n"
    ensures AppendText(before, last) == head + (text + last) + "\n"
  {
    AppendKeepsBody(before, last);
    assert before[..|before| - 1] == head + text;
  }

  /** Successive appends keep every earlier block in place and in order: the body reads as the
      original text, then the blocks in the order they were appended, then the final newline. */
  lemma {:induction false} AppendAllInOrder(body: string, blocks: seq<string>)
    requires BodyOk(body)
    ensures AppendAll(body, blocks) == body[..|body| - 1] + Concat(blocks) + "\n"
    decreases |blocks|
  {
    if blocks == [] {
      assert body == body[..|body| - 1] + "\n";
    } else {
      var init, last := blocks[..|blocks| - 1], blocks[|blocks| - 1];
      var head := body[..|body| - 1];
      AppendAllInOrder(body, init);
      AppendAfter(AppendAll(body, init), head, Concat(init), last);
      assert AppendAll(body, blocks) == AppendText(AppendAll(body, init), last);
      assert Concat(blocks) == Concat(init) + last;
    }
  }

  datatype DocError = DocumentNotFound

  /** `append_ad_data_to_doc`: `documents().get` fails for an unknown id; otherwise the block
      is appended and the block name returned. */
  function AppendAd(s: Store, docId: FileId, ad: AdData): (r: Result<Store, DocError>)
    requires Valid(s)
    ensures r.Failure? <==> docId !in s.bodies
    ensures r.Failure? <==> !IsDocumentId(s.files, docId)
  {
    if docId !in s.bodies then Failure(DocumentNotFound)
    else Success(s.(bodies := s.bodies[docId := AppendText(s.bodies[docId], FormatBlock(ad))]))
  }

  /** An append changes only the one document's body, and keeps the store valid. */
  lemma AppendAdChangesOneBody(s: Store, docId: FileId, ad: AdData)
    requires Valid(s) && docId in s.bodies
    ensures var r := AppendAd(s, docId, ad).value;
            && Valid(r)
            && r.files == s.files && r.nextId == s.nextId && r.perms == s.perms
            && r.bodies.Keys == s.bodies.Keys
            && (forall id :: id in s.bodies && id != docId ==> r.bodies[id] == s.bodies[id])
            && r.bodies[docId] == s.bodies[docId][..|s.bodies[docId]| - 1] + FormatBlock(ad) + "\n"
  {
    AppendBlockChangesOneBody(s, docId, FormatBlock(ad));
  }

  /** On a document, the append is that of the ad's block. */
  lemma AppendAdSucceeds(s: Store, docId: FileId, ad: AdData)
    requires Valid(s) && docId in s.bodies
    ensures AppendAd(s, docId, ad) == Success(s.(bodies := s.bodies[docId := AppendText(s.bodies[docId], FormatBlock(ad))]))
  {
  }

  /** Appending any block to one document changes that body alone and keeps the store valid. */
  lemma AppendBlockChangesOneBody(s: Store, docId: FileId, block: string)
    requires Valid(s) && docId in s.bodies
    ensures var r := s.(bodies := s.bodies[docId := AppendText(s.bodies[docId], block)]);
            && Valid(r)
            && r.bodies.Keys == s.bodies.Keys
            && (forall id :: id in s.bodies && id != docId ==> r.bodies[id] == s.bodies[id])
            && r.bodies[docId] == s.bodies[docId][..|s.bodies[docId]| - 1] + block + "\n"
  {
    AppendKeepsBody(s.bodies[docId], block);
    ValidBodyUpdate(s, docId, AppendText(s.bodies[docId], block));
  }

  /** Replacing one existing body by a well-formed one keeps the store valid. */
  lemma ValidBodyUpdate(s: Store, docId: FileId, body: string)
    requires Valid(s) && docId in s.bodies && BodyOk(body)
    ensures Valid(s.(bodies := s.bodies[docId := body]))
  {
    var t := s.(bodies := s.bodies[docId := body]);
    assert t.bodies.Keys == s.bodies.Keys;
    forall id | id in t.bodies ensures BodyOk(t.bodies[id]) {
      if id != docId {
        assert t.bodies[id] == s.bodies[id];
      }
    }
  }
}
