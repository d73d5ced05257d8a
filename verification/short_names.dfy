/** The search box's `shortenName`: every space-separated part of a name but the last collapses
    to its initial and a point, "Jon Doe" becoming "J. Doe". JavaScript's `split(' ')` and
    `join(' ')` behave as `Split` and `Join` do. */
module ShortNames {
  import opened Text

  /** The loop body as written, for a part that is not the last: a one-character part is kept
      and any other becomes its first character and a point. For an empty part `parts[i][0]` is
      `undefined`, which `+ '.'` turns into the text "undefined.". */
  function CollapseAsWritten(part: string): string
  {
    if |part| == 1 then part
    else if |part| == 0 then "undefined."
    else [part[0]] + "."
  }

  /** The evidently intended loop body: a part of at most one character is kept. */
  function Collapse(part: string): string
  {
    if |part| <= 1 then part else [part[0]] + "."
  }

  /** Every part but the last collapsed. */
  function CollapseButLast(parts: seq<string>, collapse: string -> string): (r: seq<string>)
    ensures |r| == |parts|
    ensures forall i | 0 <= i < |parts| - 1 :: r[i] == collapse(parts[i])
    ensures |parts| > 0 ==> r[|parts| - 1] == parts[|parts| - 1]
  {
    seq(|parts|, i requires 0 <= i < |parts| => if i < |parts| - 1 then collapse(parts[i]) else parts[i])
  }

  /** `shortenName` as written. */
  function ShortenNameAsWritten(name: string): string
  {
    Join(CollapseButLast(Split(name, " "), CollapseAsWritten), " ")
  }

  /** `shortenName` with empty parts kept as they are. */
  function ShortenName(name: string): string
  {
    Join(CollapseButLast(Split(name, " "), Collapse), " ")
  }

  /** Parts without spaces collapse to parts without spaces. */
  lemma CollapsedSpaceless(parts: seq<string>, collapse: string -> string)
    requires forall i | 0 <= i < |parts| :: ' ' !in parts[i]
    requires forall p: string | ' ' !in p :: ' ' !in collapse(p)
    ensures forall i | 0 <= i < |parts| :: ' ' !in CollapseButLast(parts, collapse)[i]
  {
  }

  /** The parts of a shortened name, split at spaces again, are the collapsed parts. */
  function ShortParts(name: string): (r: seq<string>)
    ensures r == CollapseButLast(Split(name, " "), Collapse)
  {
    SplitPiecesNoChar(name, ' ');
    CollapsedSpaceless(Split(name, " "), Collapse);
    SplitJoinChar(CollapseButLast(Split(name, " "), Collapse), ' ');
    Split(ShortenName(name), " ")
  }

  lemma CollapsedParts(parts: seq<string>, out: seq<string>)
    requires |parts| > 0 && out == CollapseButLast(parts, Collapse)
    ensures |out| == |parts|
    ensures out[|out| - 1] == parts[|parts| - 1]
    ensures forall i | 0 <= i < |parts| - 1 && |parts[i]| <= 1 :: out[i] == parts[i]
    ensures forall i | 0 <= i < |parts| - 1 && |parts[i]| >= 2 :: out[i] == [parts[i][0]] + "."
  {
  }

  /** A shortened name has as many parts as the name; the last is unchanged, parts of at most
      one character are unchanged, and every other part is its initial followed by a point. */
  lemma ShortenKeepsParts(name: string, parts: seq<string>, out: seq<string>)
    requires parts == Split(name, " ") && out == ShortParts(name)
    ensures |out| == |parts|
    ensures out[|out| - 1] == parts[|parts| - 1]
    ensures forall i | 0 <= i < |parts| - 1 && |parts[i]| <= 1 :: out[i] == parts[i]
    ensures forall i | 0 <= i < |parts| - 1 && |parts[i]| >= 2 :: out[i] == [parts[i][0]] + "."
  {
    CollapsedParts(parts, out);
  }

  /** A two-part name keeps its last part and collapses the first to its initial. */
  lemma ShortenTwo(first: string, last: string)
    requires |first| >= 2 && ' ' !in first && ' ' !in last
    ensures ShortenName(first + " " + last) == [first[0]] + ". " + last
  {
    assert first + " " + last == Join([first, last], " ");
    SplitJoinChar([first, last], ' ');
    assert CollapseButLast([first, last], Collapse) == [[first[0]] + ".", last];
  }

  /** Shortening a shortened name changes nothing. */
  lemma ShortenIdempotent(name: string)
    ensures ShortenName(ShortenName(name)) == ShortenName(name)
  {
    var out := ShortParts(name);
    assert CollapseButLast(out, Collapse) == out;
  }

  /** "Jon Doe" becomes "J. Doe". */
  lemma JonDoe()
    ensures ShortenName("Jon Doe") == "J. Doe"
  {
    ShortenTwo("Jon", "Doe");
    assert "Jon" + " " + "Doe" == "Jon Doe";
    assert ['J'] + ". " + "Doe" == "J. Doe";
  }

  /** No part before the last is empty: the name has no leading space and no two spaces in a
      row. */
  predicate NoEmptyBeforeLast(parts: seq<string>) {
    forall i | 0 <= i < |parts| - 1 :: |parts[i]| > 0
  }

  /** Without empty parts before the last, the code as written does what was intended. */
  lemma AsWrittenAgrees(name: string)
    requires NoEmptyBeforeLast(Split(name, " "))
    ensures ShortenNameAsWritten(name) == ShortenName(name)
  {
    var parts := Split(name, " ");
    var a, b := CollapseButLast(parts, CollapseAsWritten), CollapseButLast(parts, Collapse);
    forall i | 0 <= i < |parts| ensures a[i] == b[i] {
      if i < |parts| - 1 {
        assert a[i] == CollapseAsWritten(parts[i]) && b[i] == Collapse(parts[i]);
      }
    }
    assert a == b;
  }

  /** The code as written is idempotent on names without empty parts before the last. */
  lemma AsWrittenIdempotent(name: string)
    requires NoEmptyBeforeLast(Split(name, " "))
    ensures ShortenNameAsWritten(ShortenNameAsWritten(name)) == ShortenNameAsWritten(name)
  {
    AsWrittenAgrees(name);
    var out := ShortParts(name);
    var parts := Split(name, " ");
    forall i | 0 <= i < |out| - 1 ensures |out[i]| > 0 {
      assert out[i] == Collapse(parts[i]);
    }
    AsWrittenAgrees(ShortenName(name));
    ShortenIdempotent(name);
  }

  /** A leading space makes an empty first part, which the code as written prints as
      "undefined.". */
  lemma LeadingSpaceAsWritten()
    ensures ShortenNameAsWritten(" Doe") == "undefined. Doe"
    ensures ShortenName(" Doe") == " Doe"
  {
    assert " Doe" == Join(["", "Doe"], " ");
    SplitJoinChar(["", "Doe"], ' ');
    assert CollapseButLast(["", "Doe"], CollapseAsWritten) == ["undefined.", "Doe"];
    assert CollapseButLast(["", "Doe"], Collapse) == ["", "Doe"];
  }
}
