/**
 * indj/handlers.py: `LookupHandler.get_filepath`, which looks for the data
 * file of a Django version in the configured data directories. The file
 * system is given as the set of paths that exist.
 */
module Handlers {
  import opened Wrappers
  import opened Exceptions
  import opened Strings
  import opened Utils
  import opened Index

  const NoDataFilePrefix := "No data file could be found for django version `"

  /** The message raised when no directory holds the version's data file: the version's text, in backticks, ends it. */
  function NoDataFileMessage(version: Version): (r: string)
    ensures |r| == |NoDataFilePrefix| + |VersionAsString(version)| + 1
    ensures StartsWith(r, NoDataFilePrefix) && EndsWith(r, "`")
    ensures r[|NoDataFilePrefix|..|r| - 1] == VersionAsString(version)
  {
    var r := NoDataFilePrefix + VersionAsString(version) + "`";
    assert r[..|NoDataFilePrefix|] == NoDataFilePrefix;
    assert r[|NoDataFilePrefix|..|r| - 1] == VersionAsString(version);
    r
  }

  /** The outcome of the search: the data file of the first directory that has one, or an error naming the version. */
  function FindDataFile(directories: seq<string>, version: Version, existing: set<string>): (r: Result<string, IndjError>)
    ensures r.Ok? <==> exists i :: 0 <= i < |directories| && DataFilepathFromVersion(directories[i], version) in existing
    ensures r.Ok? ==> r.value in existing && exists i ::
      && 0 <= i < |directories|
      && r.value == DataFilepathFromVersion(directories[i], version)
      && forall j :: 0 <= j < i ==> DataFilepathFromVersion(directories[j], version) !in existing
    ensures r.Err? ==> r.error == LookupHandlerError(NoDataFileMessage(version))
  {
    if directories == [] then Err(LookupHandlerError(NoDataFileMessage(version)))
    else
      var filepath := DataFilepathFromVersion(directories[0], version);
      if filepath in existing then Ok(filepath)
      else
        var r := FindDataFile(directories[1..], version, existing);
        assert forall i :: 1 <= i < |directories| ==> directories[i] == directories[1..][i - 1];
        r
  }

  /** A data file just written into one of the data directories is found; when that directory comes first, it is the one returned. */
  lemma SavedIndexIsFound(doc: IndexDocument, outputDirectory: string, overwrite: bool, existing: set<string>, directories: seq<string>)
    requires SaveDecision(doc, outputDirectory, overwrite, existing).Ok?
    requires outputDirectory in directories
    ensures var written := SaveDecision(doc, outputDirectory, overwrite, existing).value.path;
      && FindDataFile(directories, doc.version.value, existing + {written}).Ok?
      && (directories[0] == outputDirectory ==> FindDataFile(directories, doc.version.value, existing + {written}) == Ok(written))
  {
    var i :| 0 <= i < |directories| && directories[i] == outputDirectory;
    assert DataFilepathFromVersion(directories[i], doc.version.value) in existing + {SaveDecision(doc, outputDirectory, overwrite, existing).value.path};
  }

  class LookupHandler {
    var version: Version
    /** `settings.DATA_DIRECTORIES`, searched in order. */
    var dataDirectories: seq<string>

    constructor (version: Version, dataDirectories: seq<string>)
      ensures this.version == version && this.dataDirectories == dataDirectories
    {
      this.version := version;
      this.dataDirectories := dataDirectories;
    }

    /** `get_filepath`: the directories are tried in order and the first existing data file is returned. */
    method GetFilepath(existing: set<string>) returns (r: Result<string, IndjError>)
      ensures r == FindDataFile(dataDirectories, version, existing)
    {
      var i := 0;
      while i < |dataDirectories|
        invariant 0 <= i <= |dataDirectories|
        invariant FindDataFile(dataDirectories[i..], version, existing) == FindDataFile(dataDirectories, version, existing)
      {
        var filepath := DataFilepathFromVersion(dataDirectories[i], version);
        if filepath in existing {
          return Ok(filepath);
        }
        assert dataDirectories[i..][1..] == dataDirectories[i + 1..];
        i := i + 1;
      }
      assert dataDirectories[i..] == [];
      r := Err(LookupHandlerError(NoDataFileMessage(version)));
    }
  }
}
