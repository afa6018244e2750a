/**
 * The "Drive Link Transformer" tab: every non-blank line of the text area
 * becomes its direct-download URL or an "Invalid link" marker, in order.
 */
module LinkBatch {
  import opened Wrappers
  import opened PyText
  import opened Seqs
  import DriveLink

  const InvalidLabel := "Invalid link: "

  /**
   * The lines the tab works through: the text area stripped and split at
   * newlines, or none at all when the text area holds only whitespace.
   */
  function InputLines(input: string): (lines: seq<string>)
    ensures lines == [] <==> AllSpace(input)
    ensures lines != [] ==> Join(lines, '\n') == Strip(input)
    ensures forall k :: 0 <= k < |lines| ==> '\n' !in lines[k]
  {
    StripEmpty(input);
    var text := Strip(input);
    SplitSpec(text, '\n');
    if text == [] then [] else Split(text, '\n')
  }

  /**
   * The lines are pinned down: any newline-free pieces that join back to the
   * stripped text area are exactly the lines.
   */
  lemma InputLinesUnique(input: string, pieces: seq<string>)
    requires !AllSpace(input) && |pieces| >= 1
    requires forall k :: 0 <= k < |pieces| ==> '\n' !in pieces[k]
    requires Join(pieces, '\n') == Strip(input)
    ensures pieces == InputLines(input)
  {
    var lines := InputLines(input);
    SplitJoin(pieces, '\n');
    SplitJoin(lines, '\n');
  }

  /**
   * A line the loops skip: `line.strip()` is empty, that is, the line is all
   * whitespace (see StripEmpty).
   */
  predicate IsBlank(line: string) {
    AllSpace(line)
  }

  /** A line the loops work on. */
  predicate NotBlank(line: string) {
    !IsBlank(line)
  }

  /** The lines that are not blank, in their original order. */
  function NonBlank(lines: seq<string>): seq<string> {
    Filter(NotBlank, lines)
  }

  /** The positions of the lines that are not blank, in increasing order. */
  function NonBlankPositions(lines: seq<string>): seq<nat> {
    Positions(NotBlank, lines)
  }

  /** Taking one more line keeps the earlier lines and adds that line unless it is blank. */
  lemma NonBlankStep(lines: seq<string>, i: nat)
    requires i < |lines|
    ensures NonBlank(lines[..i + 1]) == NonBlank(lines[..i]) + (if IsBlank(lines[i]) then [] else [lines[i]])
  {
    FilterStep(NotBlank, lines, i);
  }

  /** Dropping blank lines distributes over appending lines. */
  lemma NonBlankAppend(a: seq<string>, b: seq<string>)
    ensures NonBlank(a + b) == NonBlank(a) + NonBlank(b)
  {
    FilterAppend(NotBlank, a, b);
  }

  /**
   * The loops work on exactly the lines that are not blank, in input order:
   * the k-th kept line is the line at the k-th non-blank position, the
   * positions increase, and a position is listed exactly when its line is
   * not blank.
   */
  lemma NonBlankInOrder(lines: seq<string>)
    ensures var kept, ps := NonBlank(lines), NonBlankPositions(lines);
      && |kept| == |ps|
      && (forall k :: 0 <= k < |kept| ==> kept[k] == lines[ps[k]])
      && (forall k, m :: 0 <= k < m < |ps| ==> ps[k] < ps[m])
      && (forall i :: 0 <= i < |lines| ==> (i in ps <==> !IsBlank(lines[i])))
  {
    FilterInOrder(NotBlank, lines);
  }

  /** The entry the tab shows for one non-blank line. */
  function LineOutput(line: string): string {
    match DriveLink.TransformGdriveLink(Strip(line))
    case Some(url) => url
    case None => InvalidLabel + line
  }

  /**
   * The two kinds of entry cannot be confused: an entry starts with the
   * download prefix exactly when the stripped line held a preview segment,
   * and otherwise it is the marker followed by the line as split from the
   * stripped text area, with its own whitespace kept.
   */
  lemma OutputClassified(line: string)
    ensures var out := LineOutput(line);
      && (|out| >= |DriveLink.DownloadPrefix| && out[..|DriveLink.DownloadPrefix|] == DriveLink.DownloadPrefix
          <==> !DriveLink.NoSegment(Strip(line)))
      && (DriveLink.NoSegment(Strip(line)) ==> out == InvalidLabel + line)
  {
    var out := LineOutput(line);
    DriveLink.TransformSpec(Strip(line));
    if DriveLink.NoSegment(Strip(line)) {
      assert out == InvalidLabel + line;
      assert out[0] == InvalidLabel[0] == 'I';
      if |out| >= |DriveLink.DownloadPrefix| {
        assert out[..|DriveLink.DownloadPrefix|][0] == 'I' != DriveLink.DownloadPrefix[0];
      }
    }
  }

  /**
   * One turn of the tab's loop on a non-blank line: the line joins the kept
   * ones and its entry joins theirs.
   */
  lemma TransformLinksStep(links: seq<string>, i: nat, kept: seq<string>)
    requires i < |links| && !IsBlank(links[i])
    requires kept == NonBlank(links[..i])
    ensures NonBlank(links[..i + 1]) == kept + [links[i]]
    ensures Map(LineOutput, kept + [links[i]]) == Map(LineOutput, kept) + [LineOutput(links[i])]
  {
    NonBlankStep(links, i);
    MapSnoc(LineOutput, kept, links[i]);
  }

  /**
   * The tab's loop: for every line of the stripped text area that is not
   * blank, in order, append the direct-download URL of the stripped line or
   * the invalid-link marker with the line as split, not stripped again.
   */
  method TransformLinks(input: string) returns (out: seq<string>)
    ensures var kept := NonBlank(InputLines(input));
      && |out| == |kept|
      && forall k :: 0 <= k < |out| ==> out[k] == LineOutput(kept[k])
  {
    out := [];
    var text := Strip(input);
    if text != [] {
      var links := Split(text, '\n');
      assert links == InputLines(input);
      ghost var kept: seq<string> := [];
      for i := 0 to |links|
        invariant kept == NonBlank(links[..i])
        invariant out == Map(LineOutput, kept)
      {
        var link := links[i];
        StripEmpty(link);
        if Strip(link) != [] {
          TransformLinksStep(links, i, kept);
          var transformed := DriveLink.TransformGdriveLink(Strip(link));
          if transformed.Some? {
            out := out + [transformed.value];
          } else {
            out := out + [InvalidLabel + link];
          }
          kept := kept + [link];
        } else {
          NonBlankStep(links, i);
        }
      }
      TakeAll(links, |links|);
    } else {
      StripEmpty(input);
    }
  }

  /** A text area holding only whitespace produces no entries at all, and any other text area at least one. */
  lemma BlankInputNoOutput(input: string)
    ensures NonBlank(InputLines(input)) == [] <==> AllSpace(input)
  {
    var lines := InputLines(input);
    if !AllSpace(input) {
      var text := Strip(input);
      StripEmpty(input);
      StripSpec(input);
      var first := lines[0];
      assert text[0] !in "\n" by { assert IsSpace('\n'); }
      assert first != [] && first[0] == text[0] by {
        assert Join(lines, '\n') == text;
        if |lines| == 1 {
        } else {
          assert text == first + ['\n'] + Join(lines[1..], '\n');
        }
      }
      assert !IsSpace(first[0]);
      assert !IsBlank(lines[0]);
      NonBlankInOrder(lines);
      assert 0 in NonBlankPositions(lines);
    }
  }
}
