/**
 * The one file of the repository that the worker reads and rewrites through the GitHub contents API:
 * its base64 text and its version. A `GET` returns both; a `PUT` must quote the version it replaces
 * and is refused when the file has changed since, so that an update is never lost silently.
 */
module GitHubContents {

  /** How many base64 characters the contents API puts on each line of the content it serves. */
  const LineWidth: nat := 60

  /** The base64 text `s` broken into lines of `width` characters, each ended by a line feed: the form
      in which the contents API serves a file's content. */
  function Wrap(s: string, width: nat): (r: string)
    requires width > 0
    ensures s == [] <==> r == []
    ensures r != [] ==> r[|r| - 1] == '\n'
    ensures |r| >= |s|
    decreases |s|
  {
    if s == [] then []
    else if |s| <= width then s + "\n"
    else s[..width] + "\n" + Wrap(s[width..], width)
  }

  /** A request the worker sends for the file. */
  datatype Request =
    | Get
    | Put(content: string, sha: nat, message: string)

  class RepositoryFile {
    /** The file's content, base64 encoded, as the last accepted `PUT` sent it. */
    var content: string
    /** The file's version; the API's `sha`, modelled as a counter that every accepted `PUT` advances. */
    var sha: nat
    /** Every request made so far, oldest first. */
    var requests: seq<Request>

    constructor (content: string)
      ensures this.content == content && sha == 0 && requests == []
    {
      this.content := content;
      sha := 0;
      requests := [];
    }

    /** `GET /repos/{owner}/{repo}/contents/{path}`: the current content, broken into lines, and the version;
        nothing changes but the log. */
    method Get() returns (content: string, sha: nat)
      modifies this`requests
      ensures content == Wrap(this.content, LineWidth) && sha == this.sha
      ensures requests == old(requests) + [Request.Get]
    {
      content := Wrap(this.content, LineWidth);
      sha := this.sha;
      requests := requests + [Request.Get];
    }

    /** `PUT /repos/{owner}/{repo}/contents/{path}`: replaces the content when `sha` is the current version,
        and is refused, changing nothing but the log, otherwise. */
    method Put(content: string, sha: nat, message: string) returns (ok: bool)
      modifies this
      ensures ok <==> sha == old(this.sha)
      ensures ok ==> this.content == content && this.sha == old(this.sha) + 1
      ensures !ok ==> this.content == old(this.content) && this.sha == old(this.sha)
      ensures requests == old(requests) + [Request.Put(content, sha, message)]
    {
      ok := sha == this.sha;
      if ok {
        this.content := content;
        this.sha := this.sha + 1;
      }
      requests := requests + [Request.Put(content, sha, message)];
    }
  }
}
