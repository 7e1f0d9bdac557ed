/**
 * The two handlers that change the artist list, `POST /artists` and `DELETE /artists`, over the
 * repository file: validate the name, read and decode the stored list, decide, and write back at
 * most once, quoting the version that was read.
 */
module ArtistService {
  import opened Wrappers
  import opened JsText
  import opened ArtistSort
  import opened ArtistList
  import opened GitHubContents
  import Codec
  import JsonArtists

  /** What a handler reports. The two failures stand for the exceptions the worker turns into a server error. */
  datatype Outcome =
    | MissingName
    | AlreadyExists
    | Added(name: string)
    | NotFound
    | Removed(name: string)
    | ReadFailed
    | WriteFailed

  /** The `message` (or, for a missing name, the `error`) of the reply; the failures carry the exception's text instead. */
  function Message(outcome: Outcome): (m: Option<string>) {
    match outcome
    case MissingName => Some("Missing name")
    case AlreadyExists => Some("Already exists")
    case Added(name) => Some("Added " + name)
    case NotFound => Some("Not found")
    case Removed(name) => Some("Removed " + name)
    case ReadFailed => None
    case WriteFailed => None
  }

  /** The list a file content holds: base64 text of UTF-8 JSON, decoded and parsed; `None` where the worker throws. */
  function Stored(content: string): (r: Option<seq<string>>) {
    match Codec.DecodeText(content)
    case None => None
    case Some(text) => JsonArtists.Parse(text)
  }

  /** The content the worker writes for a list. */
  function Persisted(list: seq<string>): (content: string) {
    Codec.EncodeText(JsonArtists.Stringify(list))
  }

  /** What is written is what the next read finds. */
  lemma StoredPersisted(list: seq<string>)
    ensures Stored(Persisted(list)) == Some(list)
  {
    var text := JsonArtists.Stringify(list);
    Codec.DecodeEncodeText(text);
    JsonArtists.ParseStringify(list);
  }

  /** What is written is what the next read finds, in the line-broken form the API serves it, whatever its line width. */
  lemma ServedPersisted(list: seq<string>, width: nat)
    requires width > 0
    ensures Stored(Wrap(Persisted(list), width)) == Some(list)
  {
    Codec.DecodeTextWrap(Persisted(list), width);
    StoredPersisted(list);
  }

  /** `getArtists`: one `GET`, then the decoded list and the version it was read at. */
  method GetArtists(file: RepositoryFile) returns (r: Option<(seq<string>, nat)>)
    modifies file`requests
    ensures file.requests == old(file.requests) + [Request.Get]
    ensures r.Some? <==> Stored(file.content).Some?
    ensures r.Some? ==> r.value == (Stored(file.content).value, file.sha)
  {
    var content, sha := file.Get();
    Codec.DecodeTextWrap(file.content, LineWidth);
    var text := Codec.Base64ToUtf8(content);
    if text.None? {
      return None;
    }
    var list := JsonArtists.Parse(text.value);
    if list.None? {
      return None;
    }
    return Some((list.value, sha));
  }

  /** `saveArtists`: one `PUT` of the list's persisted form, quoting `sha`. */
  method SaveArtists(file: RepositoryFile, list: seq<string>, sha: nat, message: string) returns (ok: bool)
    modifies file
    ensures ok <==> sha == old(file.sha)
    ensures ok ==> file.content == Persisted(list) && file.sha == old(file.sha) + 1
    ensures !ok ==> file.content == old(file.content) && file.sha == old(file.sha)
    ensures file.requests == old(file.requests) + [Request.Put(Persisted(list), sha, message)]
  {
    var content := Codec.Utf8ToBase64(JsonArtists.Stringify(list));
    ok := file.Put(content, sha, message);
  }

  /** The write half of `POST /artists` for a name with no match in `list`: push, sort in place, save. */
  method CommitAdd(file: RepositoryFile, list: seq<string>, sha: nat, name: string)
    returns (artists: seq<string>, outcome: Outcome)
    modifies file
    ensures file.requests == old(file.requests) + [Request.Put(Persisted(SortByKey(list + [name])), sha, "Add " + name)]
    ensures sha == old(file.sha) ==>
      && artists == SortByKey(list + [name]) && outcome == Added(name)
      && file.content == Persisted(artists) && file.sha == old(file.sha) + 1
    ensures sha != old(file.sha) ==>
      artists == [] && outcome == WriteFailed && file.content == old(file.content) && file.sha == old(file.sha)
  {
    var pushed := list + [name];
    var a := new string[|pushed|](i requires 0 <= i < |pushed| => pushed[i]);
    assert a[..] == pushed;
    SortInPlace(a);
    var sorted := a[..];
    var ok := SaveArtists(file, sorted, sha, "Add " + name);
    if ok {
      artists, outcome := sorted, Added(name);
    } else {
      artists, outcome := [], WriteFailed;
    }
  }

  /** The write half of `DELETE /artists` once `name` is known to occur in `list`: save the filtered list. */
  method CommitRemove(file: RepositoryFile, list: seq<string>, sha: nat, name: string)
    returns (artists: seq<string>, outcome: Outcome)
    modifies file
    ensures file.requests == old(file.requests) + [Request.Put(Persisted(Without(list, name)), sha, "Remove " + name)]
    ensures sha == old(file.sha) ==>
      && artists == Without(list, name) && outcome == Removed(name)
      && file.content == Persisted(artists) && file.sha == old(file.sha) + 1
    ensures sha != old(file.sha) ==>
      artists == [] && outcome == WriteFailed && file.content == old(file.content) && file.sha == old(file.sha)
  {
    var filtered := Without(list, name);
    var ok := SaveArtists(file, filtered, sha, "Remove " + name);
    if ok {
      artists, outcome := filtered, Removed(name);
    } else {
      artists, outcome := [], WriteFailed;
    }
  }

  /** What a handler decides once it has read `list`: the list and outcome it replies with, and the commit
      message when it writes back; what it writes is always the list it replies with. */
  datatype Decision = Decision(artists: seq<string>, outcome: Outcome, commit: Option<string>)

  /** `POST /artists` after the read: a case-insensitive match changes nothing, otherwise the name is
      pushed, the list sorted and written back. */
  function DecideAdd(list: seq<string>, name: string): (d: Decision) {
    if HasMatch(list, name) then Decision(list, AlreadyExists, None)
    else Decision(SortByKey(list + [name]), Added(name), Some("Add " + name))
  }

  /** `DELETE /artists` after the read: a name that does not occur exactly changes nothing, otherwise
      every occurrence is filtered out and the rest written back. */
  function DecideRemove(list: seq<string>, name: string): (d: Decision) {
    if name !in list then Decision(list, NotFound, None)
    else Decision(Without(list, name), Removed(name), Some("Remove " + name))
  }

  /** What a handler does to the file, from the state it starts in: the list and outcome it replies with,
      the requests it sends, and the file's content and version afterwards. */
  datatype Effect = Effect(artists: seq<string>, outcome: Outcome, requests: seq<Request>, content: string, sha: nat)

  /** Carrying out `d` on a file read at version `sha`: the read, then a write quoting `sha` when `d` commits. */
  function Perform(d: Decision, content: string, sha: nat): (e: Effect)
    ensures e.artists == d.artists && e.outcome == d.outcome
    ensures d.commit.None? ==> e.requests == [Request.Get] && e.content == content && e.sha == sha
    ensures d.commit.Some? ==>
      && e.requests == [Request.Get, Request.Put(Persisted(d.artists), sha, d.commit.value)]
      && e.content == Persisted(d.artists) && e.sha == sha + 1
  {
    match d.commit
    case None => Effect(d.artists, d.outcome, [Request.Get], content, sha)
    case Some(message) =>
      Effect(d.artists, d.outcome, [Request.Get, Request.Put(Persisted(d.artists), sha, message)], Persisted(d.artists), sha + 1)
  }

  /** `POST /artists` on a file holding `content` at version `sha`. */
  function Add(content: string, sha: nat, nameOpt: Option<string>): (e: Effect) {
    match NameOf(nameOpt)
    case None => Effect([], MissingName, [], content, sha)
    case Some(name) => AddValid(content, sha, name)
  }

  /** `POST /artists` once the name has passed validation: read, decide, write. */
  function AddValid(content: string, sha: nat, name: string): (e: Effect) {
    match Stored(content)
    case None => Effect([], ReadFailed, [Request.Get], content, sha)
    case Some(list) => Perform(DecideAdd(list, name), content, sha)
  }

  /** `DELETE /artists` on a file holding `content` at version `sha`. */
  function Remove(content: string, sha: nat, nameOpt: Option<string>): (e: Effect) {
    match NameOf(nameOpt)
    case None => Effect([], MissingName, [], content, sha)
    case Some(name) => RemoveValid(content, sha, name)
  }

  /** `DELETE /artists` once the name has passed validation: read, decide, write. */
  function RemoveValid(content: string, sha: nat, name: string): (e: Effect) {
    match Stored(content)
    case None => Effect([], ReadFailed, [Request.Get], content, sha)
    case Some(list) => Perform(DecideRemove(list, name), content, sha)
  }

  /** Once the file is read, adding is carrying out the decision on the list read. */
  lemma AddValidRead(content: string, sha: nat, name: string, list: seq<string>)
    requires Stored(content) == Some(list)
    ensures AddValid(content, sha, name) == Perform(DecideAdd(list, name), content, sha)
  {
  }

  /** Once the file is read, removing is carrying out the decision on the list read. */
  lemma RemoveValidRead(content: string, sha: nat, name: string, list: seq<string>)
    requires Stored(content) == Some(list)
    ensures RemoveValid(content, sha, name) == Perform(DecideRemove(list, name), content, sha)
  {
  }

  /** The handler's effect for a valid name is the one `AddValid` describes. */
  method AddValidName(file: RepositoryFile, name: string) returns (artists: seq<string>, outcome: Outcome)
    modifies file
    ensures var e := AddValid(old(file.content), old(file.sha), name);
      && artists == e.artists && outcome == e.outcome
      && file.requests == old(file.requests) + e.requests
      && file.content == e.content && file.sha == e.sha
  {
    var stored := GetArtists(file);
    if stored.None? {
      return [], ReadFailed;
    }
    var list, sha := stored.value.0, stored.value.1;
    AddValidRead(old(file.content), old(file.sha), name, list);
    if HasMatch(list, name) {
      return list, AlreadyExists;
    }
    artists, outcome := CommitAdd(file, list, sha, name);
  }

  /** `POST /artists`: the handler's effect on the file is the one `Add` describes. */
  method AddArtist(file: RepositoryFile, nameOpt: Option<string>) returns (artists: seq<string>, outcome: Outcome)
    modifies file
    ensures var e := Add(old(file.content), old(file.sha), nameOpt);
      && artists == e.artists && outcome == e.outcome
      && file.requests == old(file.requests) + e.requests
      && file.content == e.content && file.sha == e.sha
  {
    var name := NameOf(nameOpt);
    if name.None? {
      return [], MissingName;
    }
    assert Add(file.content, file.sha, nameOpt) == AddValid(file.content, file.sha, name.value);
    artists, outcome := AddValidName(file, name.value);
  }

  /** The handler's effect for a valid name is the one `RemoveValid` describes. */
  method RemoveValidName(file: RepositoryFile, name: string) returns (artists: seq<string>, outcome: Outcome)
    modifies file
    ensures var e := RemoveValid(old(file.content), old(file.sha), name);
      && artists == e.artists && outcome == e.outcome
      && file.requests == old(file.requests) + e.requests
      && file.content == e.content && file.sha == e.sha
  {
    var stored := GetArtists(file);
    if stored.None? {
      return [], ReadFailed;
    }
    var list, sha := stored.value.0, stored.value.1;
    RemoveValidRead(old(file.content), old(file.sha), name, list);
    var filtered := Without(list, name);
    WithoutLength(list, name);
    if |filtered| == |list| {
      return list, NotFound;
    }
    artists, outcome := CommitRemove(file, list, sha, name);
  }

  /** `DELETE /artists`: the handler's effect on the file is the one `Remove` describes. */
  method RemoveArtist(file: RepositoryFile, nameOpt: Option<string>) returns (artists: seq<string>, outcome: Outcome)
    modifies file
    ensures var e := Remove(old(file.content), old(file.sha), nameOpt);
      && artists == e.artists && outcome == e.outcome
      && file.requests == old(file.requests) + e.requests
      && file.content == e.content && file.sha == e.sha
  {
    var name := NameOf(nameOpt);
    if name.None? {
      return [], MissingName;
    }
    assert Remove(file.content, file.sha, nameOpt) == RemoveValid(file.content, file.sha, name.value);
    artists, outcome := RemoveValidName(file, name.value);
  }

  /** Two `POST /artists` handlers racing: both read the same version, the first writes, and the second's write
      is refused instead of overwriting the first addition. */
  method RacingAdds(file: RepositoryFile, first: string, second: string) returns (o1: Outcome, o2: Outcome)
    modifies file
    requires Stored(file.content).Some?
    requires !HasMatch(Stored(file.content).value, first) && !HasMatch(Stored(file.content).value, second)
    ensures o1 == Added(first) && o2 == WriteFailed
    ensures Stored(file.content) == Some(SortByKey(Stored(old(file.content)).value + [first]))
    ensures file.sha == old(file.sha) + 1
  {
    var read1 := GetArtists(file);
    var read2 := GetArtists(file);
    var list1, sha1 := read1.value.0, read1.value.1;
    var list2, sha2 := read2.value.0, read2.value.1;
    var artists1, artists2;
    artists1, o1 := CommitAdd(file, list1, sha1, first);
    artists2, o2 := CommitAdd(file, list2, sha2, second);
    StoredPersisted(artists1);
  }
}
