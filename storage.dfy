/**
 * `LocalStorageService` (backend/storage_services.py): one regular file per
 * upload, named by the record id, inside a base directory. The directory's
 * regular files are the map `blobs` from file name to content.
 */
module Storage {
  import opened Records

  predicate Distinct(s: seq<string>) {
    forall i, j :: 0 <= i < j < |s| ==> s[i] != s[j]
  }

  class LocalStorageService {
    const basePath: string
    /** The regular files of the base directory, by name. */
    var blobs: map<FileId, Bytes>

    /** `mkdir(parents=True, exist_ok=True)` keeps whatever the directory already holds. */
    constructor (basePath: string, existing: map<FileId, Bytes>)
      ensures this.basePath == basePath && blobs == existing
    {
      this.basePath := basePath;
      blobs := existing;
    }

    /**
     * `base_path / file_id` for a plain file name: the base directory, a
     * separator, then the id. A pure join: it neither reads the store nor
     * checks that the file exists.
     */
    function GetFilePath(fileId: FileId): (path: string)
      ensures |path| == |basePath| + 1 + |fileId|
      ensures path[..|basePath| + 1] == basePath + "/" && path[|basePath| + 1..] == fileId
    {
      basePath + "/" + fileId
    }

    /**
     * Opens the target with mode "wb": an existing file is truncated and
     * replaced, every other file is left alone. Returns the target path.
     */
    method SaveFile(fileId: FileId, data: Bytes) returns (path: string)
      modifies this
      ensures blobs == old(blobs)[fileId := data]
      ensures path == GetFilePath(fileId)
    {
      blobs := blobs[fileId := data];
      path := GetFilePath(fileId);
    }

    /**
     * The path of every stored file, each once, in no particular order
     * (`iterdir` order).
     */
    method ListFiles() returns (paths: seq<string>)
      ensures |paths| == |blobs|
      ensures Distinct(paths)
      ensures forall id :: id in blobs ==> GetFilePath(id) in paths
      ensures forall p :: p in paths ==> exists id :: id in blobs && p == GetFilePath(id)
    {
      paths := [];
      var remaining := blobs.Keys;
      ghost var ids: seq<FileId> := [];
      while remaining != {}
        invariant remaining <= blobs.Keys
        invariant |ids| == |paths| && |paths| + |remaining| == |blobs.Keys|
        invariant forall i :: 0 <= i < |ids| ==> ids[i] in blobs && ids[i] !in remaining
        invariant forall i :: 0 <= i < |ids| ==> paths[i] == GetFilePath(ids[i])
        invariant forall id :: id in blobs && id !in remaining ==> id in ids
        invariant Distinct(paths)
        decreases |remaining|
      {
        var id :| id in remaining;
        var path := GetFilePath(id);
        forall i | 0 <= i < |paths|
          ensures paths[i] != path
        {
          PathsDiffer(ids[i], id);
        }
        paths := paths + [path];
        ids := ids + [id];
        remaining := remaining - {id};
      }
      forall p | p in paths
        ensures exists id :: id in blobs && p == GetFilePath(id)
      {
        var i :| 0 <= i < |paths| && paths[i] == p;
        assert ids[i] in blobs && p == GetFilePath(ids[i]);
      }
      forall id | id in blobs
        ensures GetFilePath(id) in paths
      {
        var i :| 0 <= i < |ids| && ids[i] == id;
        assert paths[i] == GetFilePath(id);
      }
    }

    lemma PathsDiffer(a: FileId, b: FileId)
      requires a != b
      ensures GetFilePath(a) != GetFilePath(b)
    {
    }

    /** Unlinks the file if it exists; otherwise does nothing. */
    method DeleteFile(fileId: FileId)
      modifies this
      ensures blobs == old(blobs) - {fileId}
    {
      if fileId in blobs {
        blobs := blobs - {fileId};
      }
    }
  }

  /** Deleting twice leaves the store as deleting once does. */
  method DeleteIsIdempotent(storage: LocalStorageService, fileId: FileId)
    modifies storage
    ensures storage.blobs == old(storage.blobs) - {fileId}
  {
    storage.DeleteFile(fileId);
    ghost var once := storage.blobs;
    storage.DeleteFile(fileId);
    assert storage.blobs == once;
  }

  /** A second save to the same id leaves only the second content. */
  method SaveOverwrites(storage: LocalStorageService, fileId: FileId, first: Bytes, second: Bytes)
    modifies storage
    ensures storage.blobs == old(storage.blobs)[fileId := second]
  {
    var _ := storage.SaveFile(fileId, first);
    var _ := storage.SaveFile(fileId, second);
  }
}
