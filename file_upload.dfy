/**
 * The attachment list of src/components/file-upload.tsx: appending one record per
 * incoming file, each with a freshly created object URL, and removing a record by id
 * while revoking its URL. The component hands the new list to its parent through
 * `onFilesChange`; here that list is the result, and `None` means the callback is not
 * called. Ids (`generateId`) and timestamps (`new Date().toISOString()`) are supplied
 * by the caller, one per incoming file, in the order the loop asks for them.
 */
module FileUpload {
  import opened Wrappers
  import opened Seqs
  import opened Types
  import opened ObjectUrls

  /** What a browser `File` contributes to a record. */
  datatype BrowserFile = BrowserFile(name: string, size: nat, fileType: string)

  function FileId(f: JobFile): string { f.id }
  function FileNamed(id: string): JobFile -> bool { (f: JobFile) => f.id == id }
  function FileNotNamed(id: string): JobFile -> bool { (f: JobFile) => f.id != id }

  /** The record built for one incoming file. */
  function Record(file: BrowserFile, id: string, url: string, uploadedAt: string): (r: JobFile)
    ensures r.name == file.name && r.size == file.size && r.fileType == file.fileType
    ensures r.id == id && r.url == url && r.uploadedAt == uploadedAt
  {
    JobFile(id, file.name, file.size, file.fileType, url, uploadedAt)
  }

  /**
   * The records `handleFiles` builds when the registry's next handle is number `first`:
   * one per incoming file, in input order, each copying its file's name, size and type.
   */
  function Uploads(incoming: seq<BrowserFile>, ids: seq<string>, stamps: seq<string>, first: nat)
    : (added: seq<JobFile>)
    requires |ids| == |incoming| && |stamps| == |incoming|
    ensures |added| == |incoming|
    ensures forall k :: 0 <= k < |incoming| ==>
      && added[k].name == incoming[k].name
      && added[k].size == incoming[k].size
      && added[k].fileType == incoming[k].fileType
      && added[k].id == ids[k]
      && added[k].uploadedAt == stamps[k]
  {
    seq(|incoming|, k requires 0 <= k < |incoming| =>
                      Record(incoming[k], ids[k], BlobUrl(first + k), stamps[k]))
  }

  /** The list `handleFiles` passes on: the old files first and unchanged, then the new records. */
  function WithUploads(files: seq<JobFile>, incoming: seq<BrowserFile>, ids: seq<string>,
                       stamps: seq<string>, first: nat): (r: seq<JobFile>)
    requires |ids| == |incoming| && |stamps| == |incoming|
    ensures |r| == |files| + |incoming|
    ensures r[..|files|] == files
    ensures r[|files|..] == Uploads(incoming, ids, stamps, first)
  {
    files + Uploads(incoming, ids, stamps, first)
  }

  /** The handles numbered `first` up to, not including, `first + n`. */
  ghost function Minted(first: nat, n: nat): set<string> {
    set k: nat | first <= k < first + n :: BlobUrl(k)
  }

  /** No two of the new records share a handle, and every new handle starts with "blob:". */
  lemma UploadsHaveOwnUrls(files: seq<JobFile>, incoming: seq<BrowserFile>, ids: seq<string>,
                           stamps: seq<string>, first: nat)
    requires |ids| == |incoming| && |stamps| == |incoming|
    ensures var r := WithUploads(files, incoming, ids, stamps, first);
      forall a, b :: |files| <= a < b < |r| ==> r[a].url != r[b].url
    ensures var r := WithUploads(files, incoming, ids, stamps, first);
      forall a :: |files| <= a < |r| ==> Text.StartsWith(r[a].url, "blob:")
  {
    var r := WithUploads(files, incoming, ids, stamps, first);
    forall a, b | |files| <= a < b < |r| ensures r[a].url != r[b].url {
      if r[a].url == r[b].url {
        BlobUrlInjective(first + (a - |files|), first + (b - |files|));
      }
    }
  }

  /**
   * `handleFiles`: one new handle per incoming file, the records appended after the old
   * files. The new handles were not live before and are live afterwards.
   */
  method HandleFiles(files: seq<JobFile>, incoming: seq<BrowserFile>, ids: seq<string>,
                     stamps: seq<string>, urls: UrlRegistry) returns (next: seq<JobFile>)
    requires |ids| == |incoming| && |stamps| == |incoming|
    requires urls.Valid()
    modifies urls
    ensures urls.Valid()
    ensures next == WithUploads(files, incoming, ids, stamps, old(urls.minted))
    ensures urls.minted == old(urls.minted) + |incoming|
    ensures urls.live == old(urls.live) + Minted(old(urls.minted), |incoming|)
    ensures forall k :: |files| <= k < |next| ==> next[k].url !in old(urls.live)
  {
    var newFiles: seq<JobFile> := [];
    for i := 0 to |incoming|
      invariant urls.Valid()
      invariant urls.minted == old(urls.minted) + i
      invariant urls.live == old(urls.live) + Minted(old(urls.minted), i)
      invariant |newFiles| == i
      invariant forall k :: 0 <= k < i ==>
        newFiles[k] == Record(incoming[k], ids[k], BlobUrl(old(urls.minted) + k), stamps[k])
    {
      var url := urls.Create();
      newFiles := newFiles + [Record(incoming[i], ids[i], url, stamps[i])];
      assert Minted(old(urls.minted), i + 1) == Minted(old(urls.minted), i) + {url};
    }
    next := files + newFiles;
    assert next == WithUploads(files, incoming, ids, stamps, old(urls.minted));
  }

  /**
   * `removeFile`: the list without the records carrying the id; the handle of the first
   * such record is revoked, and nothing is revoked when there is none.
   */
  method RemoveFile(files: seq<JobFile>, fileId: string, urls: UrlRegistry) returns (next: seq<JobFile>)
    requires urls.Valid()
    modifies urls
    ensures urls.Valid() && urls.minted == old(urls.minted)
    ensures next == Filter(files, FileNotNamed(fileId))
    ensures FirstIndex(files, FileNamed(fileId)).None? ==> urls.live == old(urls.live)
    ensures FirstIndex(files, FileNamed(fileId)).Some? ==>
      urls.live == old(urls.live) - {files[FirstIndex(files, FileNamed(fileId)).value].url}
  {
    var fileToRemove := FirstIndex(files, FileNamed(fileId));
    if fileToRemove.Some? {
      urls.Revoke(files[fileToRemove.value].url);
    }
    next := Filter(files, FileNotNamed(fileId));
  }

  /** With unique ids, removing the record at `i` leaves the others in their order. */
  lemma RemoveKeepsOrder(files: seq<JobFile>, i: nat)
    requires DistinctKeys(files, FileId) && i < |files|
    ensures Filter(files, FileNotNamed(files[i].id)) == files[..i] + files[i + 1..]
  {
    FilterOutUniqueKey(files, i, FileId, FileNotNamed(files[i].id));
  }

  /** Removing an id no record carries returns the list as it was. */
  lemma RemoveAbsentId(files: seq<JobFile>, fileId: string)
    requires forall f :: f in files ==> f.id != fileId
    ensures Filter(files, FileNotNamed(fileId)) == files
  {
    forall k | 0 <= k < |files| ensures FileNotNamed(fileId)(files[k]) {
      assert files[k] in files;
    }
    FilterKeepsAll(files, FileNotNamed(fileId));
  }

  /**
   * `handleDrop`: nothing happens while disabled or when no file was dropped; otherwise
   * the dropped files go through `handleFiles`.
   */
  method HandleDrop(disabled: bool, dropped: seq<BrowserFile>, files: seq<JobFile>,
                    ids: seq<string>, stamps: seq<string>, urls: UrlRegistry)
    returns (changed: Option<seq<JobFile>>)
    requires |ids| == |dropped| && |stamps| == |dropped|
    requires urls.Valid()
    modifies urls
    ensures urls.Valid()
    ensures disabled || |dropped| == 0 ==>
      changed == None && urls.live == old(urls.live) && urls.minted == old(urls.minted)
    ensures !disabled && |dropped| > 0 ==>
      && changed == Some(WithUploads(files, dropped, ids, stamps, old(urls.minted)))
      && urls.live == old(urls.live) + Minted(old(urls.minted), |dropped|)
      && urls.minted == old(urls.minted) + |dropped|
  {
    if disabled {
      return None;
    }
    if |dropped| > 0 {
      var next := HandleFiles(files, dropped, ids, stamps, urls);
      changed := Some(next);
    } else {
      changed := None;
    }
  }

  /**
   * `handleFileInputChange`: a missing or empty selection adds nothing; otherwise the
   * selected files go through `handleFiles`. The handler itself does not look at
   * `disabled`; the input element is disabled instead.
   */
  method HandleFileInputChange(selected: Option<seq<BrowserFile>>, files: seq<JobFile>,
                               ids: seq<string>, stamps: seq<string>, urls: UrlRegistry)
    returns (changed: Option<seq<JobFile>>)
    requires selected.Some? ==> |ids| == |selected.value| && |stamps| == |selected.value|
    requires urls.Valid()
    modifies urls
    ensures urls.Valid()
    ensures selected.None? || |selected.value| == 0 ==>
      changed == None && urls.live == old(urls.live) && urls.minted == old(urls.minted)
    ensures selected.Some? && |selected.value| > 0 ==>
      && changed == Some(WithUploads(files, selected.value, ids, stamps, old(urls.minted)))
      && urls.live == old(urls.live) + Minted(old(urls.minted), |selected.value|)
      && urls.minted == old(urls.minted) + |selected.value|
  {
    changed := None;
    if selected.Some? && |selected.value| > 0 {
      var next := HandleFiles(files, selected.value, ids, stamps, urls);
      changed := Some(next);
    }
  }
}
