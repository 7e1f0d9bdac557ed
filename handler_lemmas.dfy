/**
 * What the two handlers promise. Validation comes first, there is at most one write and it quotes the
 * version read, and what is written is the list replied with (stated over the effects `Add` and `Remove`);
 * the decisions taken after the read keep the list's order and its case-insensitive uniqueness (stated
 * over `DecideAdd` and `DecideRemove`, which do not depend on how the list is stored).
 */
module HandlerLemmas {
  import opened Wrappers
  import opened JsText
  import opened ArtistSort
  import opened ArtistList
  import opened GitHubContents
  import opened ArtistService

  /** A missing or blank name is refused, and then the file is neither read nor written. */
  lemma AddRefusesMissingName(content: string, sha: nat, nameOpt: Option<string>)
    ensures Add(content, sha, nameOpt).outcome == MissingName <==> NameOf(nameOpt).None?
    ensures NameOf(nameOpt).None? ==> Add(content, sha, nameOpt) == Effect([], MissingName, [], content, sha)
  {
    if NameOf(nameOpt).Some? {
      AddValidOutcome(content, sha, NameOf(nameOpt).value);
    }
  }

  /** After validation the outcome is never a missing name. */
  lemma AddValidOutcome(content: string, sha: nat, name: string)
    ensures AddValid(content, sha, name).outcome in {ReadFailed, AlreadyExists, Added(name)}
  {
  }

  /** A valid name is looked up in a fresh read, and the only write, if any, follows it, quotes the version
      that was read, and stores what is replied with. */
  lemma AddRequests(content: string, sha: nat, nameOpt: Option<string>)
    ensures var e := Add(content, sha, nameOpt);
      && |e.requests| <= 2
      && (e.requests != [] <==> NameOf(nameOpt).Some?)
      && (e.requests != [] ==> e.requests[0] == Request.Get)
      && (|e.requests| == 2 <==> e.outcome.Added?)
      && (|e.requests| == 2 ==>
            e.requests[1] == Request.Put(e.content, sha, "Add " + NameOf(nameOpt).value)
            && e.content == Persisted(e.artists) && e.sha == sha + 1)
      && (|e.requests| < 2 ==> e.content == content && e.sha == sha)
  {
    if NameOf(nameOpt).Some? {
      var name := NameOf(nameOpt).value;
      assert Add(content, sha, nameOpt) == AddValid(content, sha, name);
      match Stored(content)
      case None =>
      case Some(list) =>
        assert AddValid(content, sha, name) == Perform(DecideAdd(list, name), content, sha);
        DecideAddCommit(list, name);
    }
  }

  /** Adding writes exactly when the name is added, with the message naming it. */
  lemma DecideAddCommit(list: seq<string>, name: string)
    ensures var d := DecideAdd(list, name);
      (d.commit.Some? <==> d.outcome.Added?) && (d.commit.Some? ==> d.commit.value == "Add " + name)
  {
  }

  /** A name that matches an artist case-insensitively changes nothing: the list read is replied with. */
  lemma AddDuplicate(list: seq<string>, name: string)
    requires HasMatch(list, name)
    ensures DecideAdd(list, name) == Decision(list, AlreadyExists, None)
    ensures Message(DecideAdd(list, name).outcome) == Some("Already exists")
  {
  }

  /** A new name is added: the reply holds the old names and the new one, sorted case-insensitively,
      the new name now matches, and the message names it. */
  lemma AddNew(list: seq<string>, name: string)
    requires !HasMatch(list, name)
    ensures var d := DecideAdd(list, name);
      && d.outcome == Added(name)
      && d.commit == Some("Add " + name)
      && multiset(d.artists) == multiset(list) + multiset{name}
      && SortedByKey(d.artists)
      && HasMatch(d.artists, name)
      && Message(d.outcome) == Some("Added " + name)
  {
    AddNewName(list, name);
  }

  /** Adding keeps the list free of case-insensitive duplicates. */
  lemma DecideAddKeepsCaseUnique(list: seq<string>, name: string)
    requires CaseUnique(list)
    ensures CaseUnique(DecideAdd(list, name).artists)
  {
    if !HasMatch(list, name) {
      AddKeepsCaseUnique(list, name);
    }
  }

  /** Adding the same name twice: the second request finds it and changes nothing, and the list then
      matches the name exactly once when it had no case-insensitive duplicates. */
  lemma AddAgain(list: seq<string>, name: string)
    requires !HasMatch(list, name)
    ensures var d := DecideAdd(list, name);
      DecideAdd(d.artists, name) == Decision(d.artists, AlreadyExists, None)
    ensures CaseUnique(list) ==> MatchCount(DecideAdd(list, name).artists, name) == 1
  {
    AddNewName(list, name);
    if CaseUnique(list) {
      AddedOnce(list, name);
    }
  }

  /** Two `POST /artists` requests with the same name in a row: the first adds it and writes the new list,
      which the second reads back and leaves as it is. */
  lemma AddTwice(content: string, sha: nat, nameOpt: Option<string>, list: seq<string>)
    requires NameOf(nameOpt).Some? && Stored(content) == Some(list) && !HasMatch(list, NameOf(nameOpt).value)
    ensures var e := Add(content, sha, nameOpt);
      && e.outcome == Added(NameOf(nameOpt).value)
      && Stored(e.content) == Some(e.artists)
      && Add(e.content, e.sha, nameOpt) == Effect(e.artists, AlreadyExists, [Request.Get], e.content, e.sha)
  {
    var name := NameOf(nameOpt).value;
    var d := DecideAdd(list, name);
    assert Add(content, sha, nameOpt) == Perform(d, content, sha);
    AddAgain(list, name);
    StoredPersisted(d.artists);
    assert Add(Persisted(d.artists), sha + 1, nameOpt) == Perform(DecideAdd(d.artists, name), Persisted(d.artists), sha + 1);
  }

  /** A missing or blank name is refused, and then the file is neither read nor written. */
  lemma RemoveRefusesMissingName(content: string, sha: nat, nameOpt: Option<string>)
    ensures Remove(content, sha, nameOpt).outcome == MissingName <==> NameOf(nameOpt).None?
    ensures NameOf(nameOpt).None? ==> Remove(content, sha, nameOpt) == Effect([], MissingName, [], content, sha)
  {
    if NameOf(nameOpt).Some? {
      RemoveValidOutcome(content, sha, NameOf(nameOpt).value);
    }
  }

  /** After validation the outcome is never a missing name. */
  lemma RemoveValidOutcome(content: string, sha: nat, name: string)
    ensures RemoveValid(content, sha, name).outcome in {ReadFailed, NotFound, Removed(name)}
  {
  }

  /** A valid name is looked up in a fresh read, and the only write, if any, follows it, quotes the version
      that was read, and stores what is replied with. */
  lemma RemoveRequests(content: string, sha: nat, nameOpt: Option<string>)
    ensures var e := Remove(content, sha, nameOpt);
      && |e.requests| <= 2
      && (e.requests != [] <==> NameOf(nameOpt).Some?)
      && (e.requests != [] ==> e.requests[0] == Request.Get)
      && (|e.requests| == 2 <==> e.outcome.Removed?)
      && (|e.requests| == 2 ==>
            e.requests[1] == Request.Put(e.content, sha, "Remove " + NameOf(nameOpt).value)
            && e.content == Persisted(e.artists) && e.sha == sha + 1)
      && (|e.requests| < 2 ==> e.content == content && e.sha == sha)
  {
    if NameOf(nameOpt).Some? {
      var name := NameOf(nameOpt).value;
      assert Remove(content, sha, nameOpt) == RemoveValid(content, sha, name);
      match Stored(content)
      case None =>
      case Some(list) =>
        assert RemoveValid(content, sha, name) == Perform(DecideRemove(list, name), content, sha);
        DecideRemoveCommit(list, name);
    }
  }

  /** Removing writes exactly when the name is removed, with the message naming it. */
  lemma DecideRemoveCommit(list: seq<string>, name: string)
    ensures var d := DecideRemove(list, name);
      (d.commit.Some? <==> d.outcome.Removed?) && (d.commit.Some? ==> d.commit.value == "Remove " + name)
  {
  }

  /** A name that does not occur exactly changes nothing: the list read is replied with. */
  lemma RemoveNotFound(list: seq<string>, name: string)
    requires name !in list
    ensures DecideRemove(list, name) == Decision(list, NotFound, None)
    ensures Message(DecideRemove(list, name).outcome) == Some("Not found")
  {
  }

  /** A name that occurs is removed: every exact occurrence goes, every other name stays, a sorted list
      stays sorted, a list without case-insensitive duplicates keeps none, and the message names it. */
  lemma RemoveFound(list: seq<string>, name: string)
    requires name in list
    ensures var d := DecideRemove(list, name);
      && d.outcome == Removed(name)
      && d.commit == Some("Remove " + name)
      && multiset(d.artists) == multiset(list)[name := 0]
      && (SortedByKey(list) ==> SortedByKey(d.artists))
      && (CaseUnique(list) ==> CaseUnique(d.artists))
      && Message(d.outcome) == Some("Removed " + name)
  {
    WithoutMultiset(list, name);
    if SortedByKey(list) {
      WithoutSorted(list, name);
    }
    if CaseUnique(list) {
      WithoutCaseUnique(list, name);
    }
  }

  /** Removing the same name twice: the second request finds nothing and changes nothing. */
  lemma RemoveAgain(list: seq<string>, name: string)
    ensures var d := DecideRemove(list, name);
      DecideRemove(d.artists, name) == Decision(d.artists, NotFound, None)
  {
  }

  /** Two `DELETE /artists` requests with the same name in a row: the first removes it and writes the new
      list, which the second reads back and leaves as it is. */
  lemma RemoveTwice(content: string, sha: nat, nameOpt: Option<string>, list: seq<string>)
    requires NameOf(nameOpt).Some? && Stored(content) == Some(list) && NameOf(nameOpt).value in list
    ensures var e := Remove(content, sha, nameOpt);
      && e.outcome == Removed(NameOf(nameOpt).value)
      && Stored(e.content) == Some(e.artists)
      && Remove(e.content, e.sha, nameOpt) == Effect(e.artists, NotFound, [Request.Get], e.content, e.sha)
  {
    var name := NameOf(nameOpt).value;
    var d := DecideRemove(list, name);
    assert Remove(content, sha, nameOpt) == Perform(d, content, sha);
    RemoveAgain(list, name);
    StoredPersisted(d.artists);
    assert Remove(Persisted(d.artists), sha + 1, nameOpt) == Perform(DecideRemove(d.artists, name), Persisted(d.artists), sha + 1);
  }

  /** Removal is case-sensitive: removing "muse" from a list holding "Muse" finds nothing. */
  lemma RemoveIsCaseSensitive()
    ensures DecideRemove(["Muse"], "muse") == Decision(["Muse"], NotFound, None)
  {
    assert "muse" != "Muse";
  }

  /** Names whose lower-cased first letters differ are ordered by those letters and are different artists. */
  lemma FirstLetterOrder(a: string, b: string)
    requires a != [] && b != [] && LowerChar(a[0]) < LowerChar(b[0])
    ensures KeyLe(a, b) && !KeyLe(b, a) && !SameKey(a, b)
  {
    assert ToLower(a)[0] == LowerChar(a[0]) && ToLower(b)[0] == LowerChar(b[0]);
  }

  /** Adding "Arcade Fire" to a list holding "Muse" and "Radiohead" puts it first and writes the list. */
  lemma AddArcadeFire()
    ensures DecideAdd(["Muse", "Radiohead"], "Arcade Fire")
      == Decision(["Arcade Fire", "Muse", "Radiohead"], Added("Arcade Fire"), Some("Add Arcade Fire"))
  {
    NoMatchBeforeBoth("Muse", "Radiohead", "Arcade Fire");
    SortTwoThenFirst("Muse", "Radiohead", "Arcade Fire");
    var d := DecideAdd(["Muse", "Radiohead"], "Arcade Fire");
    assert d.commit == Some("Add " + "Arcade Fire");
    AddArcadeFireMessage();
  }

  lemma AddArcadeFireMessage()
    ensures "Add " + "Arcade Fire" == "Add Arcade Fire"
  {
  }

  /** A name whose first letter precedes those of both entries matches neither. */
  lemma NoMatchBeforeBoth(a: string, b: string, c: string)
    requires a != [] && b != [] && c != []
    requires LowerChar(c[0]) < LowerChar(a[0]) && LowerChar(c[0]) < LowerChar(b[0])
    ensures !HasMatch([a, b], c)
  {
    FirstLetterOrder(c, a);
    FirstLetterOrder(c, b);
  }

  /** Sorting `[a, b, c]` where `c` precedes both and `a` precedes `b`. */
  lemma SortTwoThenFirst(a: string, b: string, c: string)
    requires a != [] && b != [] && c != []
    requires LowerChar(c[0]) < LowerChar(a[0]) < LowerChar(b[0])
    ensures SortByKey([a, b] + [c]) == [c, a, b]
  {
    FirstLetterOrder(c, a);
    FirstLetterOrder(c, b);
    FirstLetterOrder(a, b);
    var pushed := [a, b] + [c];
    assert pushed[..2] == [a, b] && pushed[2] == c;
    assert [a, b][..1] == [a];
    assert SortByKey([a]) == [a];
    assert SortByKey([a, b]) == [a, b];
    assert InsertBack([a], c) == [c, a];
    assert InsertBack([a, b], c) == [c, a, b];
  }

  /** Removing "Muse" from that list takes it out and writes the rest; removing it again finds nothing. */
  lemma RemoveMuseTwice()
    ensures DecideRemove(["Arcade Fire", "Muse", "Radiohead"], "Muse")
      == Decision(["Arcade Fire", "Radiohead"], Removed("Muse"), Some("Remove Muse"))
    ensures DecideRemove(["Arcade Fire", "Radiohead"], "Muse") == Decision(["Arcade Fire", "Radiohead"], NotFound, None)
  {
    var muse, radiohead, arcadeFire := "Muse", "Radiohead", "Arcade Fire";
    assert muse != arcadeFire && muse != radiohead;
    assert [arcadeFire, muse, radiohead][1] == muse;
    assert Without([radiohead], muse) == [radiohead];
    assert Without([muse, radiohead], muse) == [radiohead];
    assert Without([arcadeFire, muse, radiohead], muse) == [arcadeFire, radiohead];
    assert "Remove " + muse == "Remove Muse";
  }
}
