/** Where a browser-triggered download is saved (src/chatview.cpp,
    DownloadDirectoryPath and HandleDownloadRequest): the name and path the
    save dialog proposes, and how the path the user picks becomes the
    download's directory and file name or cancels the download. */
module Downloads {
  import opened Strings
  import opened Paths

  const DefaultFileName: string := "download"
  const DownloadsFolder: string := "Downloads"

  datatype DownloadState = Requested | Accepted | Cancelled

  /** The parts of a QWebEngineDownloadRequest the handler reads and sets. */
  class DownloadRequest {
    var downloadFileName: string
    var downloadDirectory: string
    var state: DownloadState

    constructor (suggestedFileName: string)
      ensures downloadFileName == suggestedFileName && downloadDirectory == [] && state == Requested
    {
      downloadFileName := suggestedFileName;
      downloadDirectory := [];
      state := Requested;
    }

    method Cancel()
      modifies this`state
      ensures state == Cancelled
    {
      state := Cancelled;
    }

    method Accept()
      modifies this`state
      ensures state == Accepted
    {
      state := Accepted;
    }

    method SetDownloadDirectory(directory: string)
      modifies this`downloadDirectory
      ensures downloadDirectory == directory
    {
      downloadDirectory := directory;
    }

    method SetDownloadFileName(fileName: string)
      modifies this`downloadFileName
      ensures downloadFileName == fileName
    {
      downloadFileName := fileName;
    }
  }

  /** The proposed file name: the page's name for the download, or "download" when it has none. */
  function SuggestedName(downloadFileName: string): (r: string)
    ensures r != []
    ensures downloadFileName != [] ==> r == downloadFileName
    ensures downloadFileName == [] ==> r == DefaultFileName
  {
    if downloadFileName == [] then DefaultFileName else downloadFileName
  }

  /** DownloadDirectoryPath: the download location, or ~/Downloads without one. */
  function DownloadDirectoryPath(downloadLocation: string, home: string): (r: string)
    ensures r != []
    ensures downloadLocation != [] ==> r == downloadLocation
    ensures downloadLocation == [] ==> r == home + "/" + DownloadsFolder
  {
    if downloadLocation == [] then home + "/" + DownloadsFolder else downloadLocation
  }

  /** The path the save dialog starts from. */
  function SuggestedPath(downloadLocation: string, home: string, downloadFileName: string): string {
    JoinPath(DownloadDirectoryPath(downloadLocation, home), SuggestedName(downloadFileName))
  }

  /** What becomes of a download once the user has picked a path. */
  datatype Target = Cancel | Save(directory: string, fileName: string)

  /** An empty pick cancels; so does a directory that cannot be created, and
      a pick without a file name; otherwise the download is saved under the
      pick's absolute directory with the pick's file name. makePath stands for
      QDir::mkpath, which reports whether the directory exists afterwards. */
  function TargetFor(selected: string, cwd: string, makePath: string -> bool): Target {
    if selected == [] then Cancel
    else if !makePath(AbsolutePath(selected, cwd)) then Cancel
    else if FileName(selected) == [] then Cancel
    else Save(AbsolutePath(selected, cwd), FileName(selected))
  }

  /** The handler's steps once the dialog has answered with selected: an
      empty pick, a directory that cannot be created and a pick without a
      file name cancel the request and leave its name and directory alone;
      otherwise the request takes the pick's directory and name and is accepted. */
  method ApplyPick(download: DownloadRequest, selected: string, cwd: string, makePath: string -> bool)
    modifies download
    ensures var target := TargetFor(selected, cwd, makePath);
            if target.Save? then
              download.state == Accepted
              && download.downloadDirectory == target.directory
              && download.downloadFileName == target.fileName
            else
              download.state == Cancelled
              && download.downloadFileName == old(download.downloadFileName)
              && download.downloadDirectory == old(download.downloadDirectory)
  {
    var target := TargetFor(selected, cwd, makePath);
    if target.Save? {
      download.SetDownloadDirectory(target.directory);
      download.SetDownloadFileName(target.fileName);
      download.Accept();
    } else {
      download.Cancel();
    }
  }

  /** The dialog proposes the suggested name inside the download directory. */
  lemma SuggestedPathNamesFile(downloadLocation: string, home: string, downloadFileName: string)
    requires '/' !in downloadFileName
    ensures FileName(SuggestedPath(downloadLocation, home, downloadFileName)) == SuggestedName(downloadFileName)
  {
    FileNameOfJoin(DownloadDirectoryPath(downloadLocation, home), SuggestedName(downloadFileName));
  }

  /** A saved download always has a non-empty plain file name taken from the
      end of the pick, and the pick's absolute directory. */
  lemma SavedDownloadIsNamed(selected: string, cwd: string, makePath: string -> bool)
    requires TargetFor(selected, cwd, makePath).Save?
    ensures var t := TargetFor(selected, cwd, makePath);
            t.fileName != [] && '/' !in t.fileName && EndsWith(selected, t.fileName)
            && t.directory == AbsolutePath(selected, cwd) && makePath(t.directory)
  {
  }

  /** A pick that names a directory (ends with '/') has no file name and cancels. */
  lemma DirectoryPickCancels(selected: string, cwd: string, makePath: string -> bool)
    requires selected != [] && selected[|selected| - 1] == '/'
    ensures TargetFor(selected, cwd, makePath) == Cancel
  {
    assert FileName(selected) == [];
  }

  /** An absolute pick without empty segments whose directory can be created
      is saved at exactly the picked path: its directory joined with its name. */
  lemma SaveLandsOnPick(selected: string, cwd: string, makePath: string -> bool)
    requires IsAbsolute(selected) && NoEmptySegments(selected) && FileName(selected) != []
    requires makePath(DirPath(selected))
    ensures TargetFor(selected, cwd, makePath) == Save(DirPath(selected), FileName(selected))
    ensures JoinPath(DirPath(selected), FileName(selected)) == selected
  {
    SplitAndJoin(selected);
  }
}
