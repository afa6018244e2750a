/**
 * `transform_gdrive_link`: a regular-expression search for
 * `/d/([a-zA-Z0-9_-]+)/preview` whose captured file identifier is put into a
 * Google Drive direct-download URL.
 */
module DriveLink {
  import opened Wrappers

  const DriveHost := "https://drive.google.com"
  /** What the direct-download URL starts with; the file identifier follows. */
  const DownloadPrefix := DriveHost + "/uc?export=download&id="
  /** The literal text in front of the group. */
  const Opening := "/d/"
  /** The literal text after the group. */
  const Closing := "/preview"

  /** The character class `[a-zA-Z0-9_-]`. */
  predicate IsIdChar(c: char) {
    ('a' <= c <= 'z') || ('A' <= c <= 'Z') || ('0' <= c <= '9') || c == '_' || c == '-'
  }

  /** A string matched by `[a-zA-Z0-9_-]+`. */
  predicate IsId(id: string) {
    |id| >= 1 && forall k :: 0 <= k < |id| ==> IsIdChar(id[k])
  }

  /** `/d/` occurs at position `i`, character by character. */
  predicate OpeningAt(s: string, i: nat) {
    i + 3 <= |s| && s[i] == '/' && s[i + 1] == 'd' && s[i + 2] == '/'
  }

  /** `/preview` occurs at position `c`, character by character. */
  predicate ClosingAt(s: string, c: nat) {
    && c + 8 <= |s|
    && s[c] == '/' && s[c + 1] == 'p' && s[c + 2] == 'r' && s[c + 3] == 'e'
    && s[c + 4] == 'v' && s[c + 5] == 'i' && s[c + 6] == 'e' && s[c + 7] == 'w'
  }

  /** The two literals, where they are written into a string. */
  lemma LiteralsAt(p: string, x: string)
    ensures OpeningAt(p + Opening + x, |p|)
    ensures ClosingAt(p + Closing + x, |p|)
  {
  }

  /**
   * The pattern matches `s` at position `i` with `id` as its group: the
   * text starting at `i` is `/d/`, then `id`, then `/preview`.
   */
  predicate SegmentAt(s: string, i: nat, id: string) {
    && IsId(id)
    && OpeningAt(s, i)
    && i + 3 + |id| <= |s| && s[i + 3..i + 3 + |id|] == id
    && ClosingAt(s, i + 3 + |id|)
  }

  /** No position of `s` starts a match. */
  ghost predicate NoSegment(s: string) {
    forall i: nat, id :: !SegmentAt(s, i, id)
  }

  /** The group of a match lies in `s` character by character, each one in the class. */
  lemma GroupChars(s: string, i: nat, id: string)
    requires SegmentAt(s, i, id)
    ensures forall k :: 0 <= k < |id| ==> s[i + 3 + k] == id[k] && IsIdChar(s[i + 3 + k])
  {
    forall k | 0 <= k < |id| ensures s[i + 3 + k] == id[k] && IsIdChar(s[i + 3 + k]) {
      assert s[i + 3..i + 3 + |id|][k] == s[i + 3 + k];
    }
  }

  /**
   * At most one group can match at a given position: `/` is not in the
   * class, so the group ends exactly where the run of class characters does.
   */
  lemma SegmentUnique(s: string, i: nat, id1: string, id2: string)
    requires SegmentAt(s, i, id1) && SegmentAt(s, i, id2)
    ensures id1 == id2
  {
    GroupChars(s, i, id1);
    GroupChars(s, i, id2);
    if |id1| < |id2| {
      assert false;
    } else if |id2| < |id1| {
      assert false;
    }
  }

  /** The length of the run of class characters that starts at `j` (the greedy `+`). */
  function IdRun(s: string, j: nat): (n: nat)
    requires j <= |s|
    ensures j + n <= |s|
    ensures forall k :: j <= k < j + n ==> IsIdChar(s[k])
    ensures j + n == |s| || !IsIdChar(s[j + n])
    decreases |s| - j
  {
    if j < |s| && IsIdChar(s[j]) then 1 + IdRun(s, j + 1) else 0
  }

  /**
   * The regular-expression engine trying position `i`: `/d/`, then the
   * greedy run, then `/preview`. Backing off the run cannot help, since the
   * character after a shorter run is a class character and not `/`.
   */
  function MatchAt(s: string, i: nat): Option<string> {
    if OpeningAt(s, i) then
      var n := IdRun(s, i + 3);
      if n >= 1 && ClosingAt(s, i + 3 + n) then Some(s[i + 3..i + 3 + n]) else None
    else
      None
  }

  /** Where the pattern matches, the engine's greedy run is exactly the group. */
  lemma SegmentFound(s: string, i: nat, id: string)
    requires SegmentAt(s, i, id)
    ensures MatchAt(s, i) == Some(id)
  {
    GroupChars(s, i, id);
    var n := IdRun(s, i + 3);
    if n < |id| {
      assert false;
    } else if n > |id| {
      assert false;
    }
  }

  /** Where the engine finds a group, the pattern matches with that group. */
  lemma MatchFound(s: string, i: nat)
    requires MatchAt(s, i).Some?
    ensures SegmentAt(s, i, MatchAt(s, i).value)
  {
    var n := IdRun(s, i + 3);
    var id := s[i + 3..i + 3 + n];
    forall k | 0 <= k < |id| ensures IsIdChar(id[k]) {
      assert id[k] == s[i + 3 + k];
    }
  }

  /** The engine finds a group at `i` exactly when the pattern matches there with that group. */
  lemma MatchAtExact(s: string, i: nat)
    ensures forall id :: MatchAt(s, i) == Some(id) <==> SegmentAt(s, i, id)
  {
    forall id | SegmentAt(s, i, id) ensures MatchAt(s, i) == Some(id) {
      SegmentFound(s, i, id);
    }
    if MatchAt(s, i).Some? {
      MatchFound(s, i);
    }
  }

  /** A match object: where the match starts and what group 1 captured. */
  datatype Match = Match(start: nat, group: string)

  /**
   * `re.search` from position `i` on: the first position at or after `i`
   * where the engine finds a match, with its group, or `None`.
   */
  function SearchFrom(s: string, i: nat): Option<Match>
    decreases |s| - i
  {
    if i > |s| then
      None
    else if MatchAt(s, i).Some? then
      Some(Match(i, MatchAt(s, i).value))
    else
      SearchFrom(s, i + 1)
  }

  /**
   * The search finds the leftmost match at or after `i`, and finds nothing
   * only when the pattern matches nowhere from `i` on.
   */
  lemma {:induction false} SearchFromSpec(s: string, i: nat)
    ensures var m := SearchFrom(s, i);
      && (m.Some? ==> i <= m.value.start && SegmentAt(s, m.value.start, m.value.group))
      && (m.Some? ==> forall j: nat, id :: i <= j < m.value.start ==> !SegmentAt(s, j, id))
      && (m.None? ==> forall j: nat, id :: i <= j ==> !SegmentAt(s, j, id))
    decreases |s| - i
  {
    MatchAtExact(s, i);
    if i <= |s| && MatchAt(s, i).None? {
      SearchFromSpec(s, i + 1);
    }
  }

  /**
   * `transform_gdrive_link`: the download URL for the identifier of the
   * leftmost match, or `None` when the pattern occurs nowhere in `link`.
   */
  function TransformGdriveLink(link: string): Option<string> {
    match SearchFrom(link, 0)
    case None => None
    case Some(m) => Some(DownloadPrefix + m.group)
  }

  /**
   * The result is `None` exactly when the pattern occurs nowhere in the
   * link; otherwise it is the download prefix followed by an identifier,
   * which holds no `/`.
   */
  lemma TransformSpec(link: string)
    ensures var r := TransformGdriveLink(link);
      && (r.None? <==> NoSegment(link))
      && (r.Some? ==> |r.value| > |DownloadPrefix| && r.value[..|DownloadPrefix|] == DownloadPrefix)
      && (r.Some? ==> IsId(r.value[|DownloadPrefix|..]) && '/' !in r.value[|DownloadPrefix|..])
  {
    SearchFromSpec(link, 0);
    match SearchFrom(link, 0)
    case None =>
    case Some(m) =>
      assert (DownloadPrefix + m.group)[|DownloadPrefix|..] == m.group;
  }

  /**
   * Search semantics: the result carries the identifier of the leftmost
   * match, whatever matches follow it.
   */
  lemma TransformPicksLeftmost(link: string, i: nat, id: string)
    requires SegmentAt(link, i, id)
    requires forall j: nat, id' :: j < i ==> !SegmentAt(link, j, id')
    ensures TransformGdriveLink(link) == Some(DownloadPrefix + id)
  {
    SearchFromSpec(link, 0);
    var m := SearchFrom(link, 0);
    assert m.Some?;
    assert m.value.start == i;
    SegmentUnique(link, i, id, m.value.group);
  }

  /** A match in `s` holds unchanged in `s + q`. */
  lemma SegmentExtends(s: string, q: string, i: nat, id: string)
    requires SegmentAt(s, i, id)
    ensures SegmentAt(s + q, i, id)
  {
    assert (s + q)[i + 3..i + 3 + |id|] == s[i + 3..i + 3 + |id|];
  }

  /** A match that lies within the first `|s|` characters of `s + q` is a match in `s`. */
  lemma SegmentRestricts(s: string, q: string, j: nat, id: string)
    requires SegmentAt(s + q, j, id) && j + |id| + 11 <= |s|
    ensures SegmentAt(s, j, id)
  {
    assert (s + q)[j + 3..j + 3 + |id|] == s[j + 3..j + 3 + |id|];
  }

  /**
   * A match that starts before another one also ends no later than it: the
   * `/` that ends the later group cannot lie inside the earlier one.
   */
  lemma EarlierSegmentEndsFirst(s: string, i: nat, id: string, j: nat, id': string)
    requires SegmentAt(s, i, id) && SegmentAt(s, j, id') && j < i
    ensures j + |id'| <= i + |id|
  {
    GroupChars(s, j, id');
    var c := i + 3 + |id|;
    if j + 3 + |id'| > c {
      assert false;
    }
  }

  /**
   * A match that starts at least three characters before a `/d` ends before
   * it: the `/` can be neither in the group nor in `/preview`, whose `/` is
   * followed by `p`.
   */
  lemma SegmentEndsBefore(s: string, j: nat, id: string, i: nat)
    requires SegmentAt(s, j, id)
    requires j + 3 <= i && i + 1 < |s| && s[i] == '/' && s[i + 1] == 'd'
    ensures j + |id| + 11 <= i
  {
    GroupChars(s, j, id);
    var c := j + 3 + |id|;
    if i < c {
      assert false;
    } else if i < c + 8 {
      assert false;
    }
  }

  /** Text after a link that already matches cannot change the result. */
  lemma SuffixIgnored(link: string, q: string)
    requires TransformGdriveLink(link).Some?
    ensures TransformGdriveLink(link + q) == TransformGdriveLink(link)
  {
    SearchFromSpec(link, 0);
    var m := SearchFrom(link, 0).value;
    SegmentExtends(link, q, m.start, m.group);
    forall j: nat, id' | j < m.start ensures !SegmentAt(link + q, j, id') {
      if SegmentAt(link + q, j, id') {
        EarlierSegmentEndsFirst(link + q, m.start, m.group, j, id');
        SegmentRestricts(link, q, j, id');
        assert false;
      }
    }
    TransformPicksLeftmost(link + q, m.start, m.group);
  }

  /** `/d/<id>/preview` written after `p` is a match at position `|p|`. */
  lemma SegmentPlaced(p: string, id: string, q: string)
    requires IsId(id)
    ensures SegmentAt(p + Opening + id + Closing + q, |p|, id)
  {
    var s := p + Opening + id + Closing + q;
    var i := |p|;
    assert s == p + Opening + (id + Closing + q);
    LiteralsAt(p, id + Closing + q);
    assert s == (p + Opening + id) + Closing + q;
    LiteralsAt(p + Opening + id, q);
    assert s[i + 3..i + 3 + |id|] == id;
  }

  /**
   * Before a `/d/` written after a prefix with no match of its own that
   * does not end in `/d`, nothing matches.
   */
  lemma NoSegmentBefore(p: string, rest: string, j: nat, id: string)
    requires NoSegment(p)
    requires !(|p| >= 2 && p[|p| - 2] == '/' && p[|p| - 1] == 'd')
    requires OpeningAt(p + rest, |p|) && j < |p|
    ensures !SegmentAt(p + rest, j, id)
  {
    var s := p + rest;
    if SegmentAt(s, j, id) {
      if j + 3 <= |p| {
        SegmentEndsBefore(s, j, id, |p|);
        SegmentRestricts(p, rest, j, id);
        assert false;
      } else {
        assert false;
      }
    }
  }

  /**
   * Hosts, paths and query strings around a preview segment are ignored: a
   * prefix with no match of its own that does not end in `/d`, then
   * `/d/<id>/preview`, then anything, gives the URL for `id`.
   */
  lemma ContextIgnored(p: string, id: string, q: string)
    requires IsId(id)
    requires NoSegment(p)
    requires !(|p| >= 2 && p[|p| - 2] == '/' && p[|p| - 1] == 'd')
    ensures TransformGdriveLink(p + Opening + id + Closing + q) == Some(DownloadPrefix + id)
  {
    var rest := Opening + id + Closing + q;
    var s := p + rest;
    SegmentPlaced(p, id, q);
    assert s == p + Opening + id + Closing + q;
    forall j: nat, id' | j < |p| ensures !SegmentAt(s, j, id') {
      NoSegmentBefore(p, rest, j, id');
    }
    TransformPicksLeftmost(s, |p|, id);
  }

  /** The host and path in front of the identifier in the tool's example link. */
  lemma ExampleHostHasNoSegment()
    ensures NoSegment(DriveHost + "/file")
  {
    var p := DriveHost + "/file";
    forall i: nat, id | SegmentAt(p, i, id) ensures false {
    }
  }

  /** The help text's example link, taken apart around its identifier. */
  lemma ExampleLinkShape()
    ensures DriveHost + "/file/d/YOUR_FILE_ID/preview" == (DriveHost + "/file") + Opening + "YOUR_FILE_ID" + Closing + ""
  {
    assert "/file/d/YOUR_FILE_ID/preview" == "/file" + Opening + "YOUR_FILE_ID" + Closing;
  }

  /**
   * The example link from the tool's help text,
   * `https://drive.google.com/file/d/YOUR_FILE_ID/preview`, turns into
   * `https://drive.google.com/uc?export=download&id=YOUR_FILE_ID`.
   */
  lemma PreviewLinkExample()
    ensures TransformGdriveLink(DriveHost + "/file/d/YOUR_FILE_ID/preview") == Some(DownloadPrefix + "YOUR_FILE_ID")
  {
    var p := DriveHost + "/file";
    ExampleHostHasNoSegment();
    assert p[|p| - 1] == 'e';
    assert IsId("YOUR_FILE_ID");
    ContextIgnored(p, "YOUR_FILE_ID", "");
    ExampleLinkShape();
  }
}
