/**
 * The subnet loader: the list comprehension in `main` that turns the lines
 * of the input file into the ordered list of subnet tokens to scan.
 *
 * A raw line (as the file iterator yields it, terminator included) is kept
 * when it is not blank after stripping and its UNSTRIPPED text does not
 * start with '#'; what is kept is the stripped text. So "  #x" is kept, as
 * "#x": only a '#' in the very first column marks a comment.
 */
module SubnetLoader {
  import opened Text

  /** The comment marker, tested against the raw line. */
  const CommentMark: string := "#"

  /** A raw line that names a subnet: it has a non-blank character and its
      first character is not '#'. */
  predicate IsSubnetLine(line: string) {
    HasNonSpace(line) && !(|line| > 0 && line[0] == '#')
  }

  /** The filter of the comprehension, as written: the stripped line is not
      empty and the raw line does not start with the comment mark. It keeps
      exactly the subnet lines. */
  function Keep(line: string): (b: bool)
    ensures b <==> IsSubnetLine(line)
  {
    Strip(line) != [] && !StartsWith(line, CommentMark)
  }

  /** The subnets loaded from the raw lines of the input file, in file order. */
  function LoadSubnets(lines: seq<string>): (subnets: seq<string>)
    ensures |subnets| <= |lines|
    ensures forall k :: 0 <= k < |subnets| ==> subnets[k] != [] && IsStripped(subnets[k])
  {
    if lines == [] then []
    else
      var last := lines[|lines| - 1];
      LoadSubnets(lines[..|lines| - 1]) + (if Keep(last) then [Strip(last)] else [])
  }

  /** The positions of the kept lines, in increasing order: an independent
      description of which lines the loader keeps. */
  function KeptIndices(lines: seq<string>): (idx: seq<nat>)
    ensures forall k :: 0 <= k < |idx| ==> idx[k] < |lines| && IsSubnetLine(lines[idx[k]])
    ensures forall k, k' :: 0 <= k < k' < |idx| ==> idx[k] < idx[k']
    ensures forall i :: 0 <= i < |lines| && IsSubnetLine(lines[i]) ==> i in idx
  {
    if lines == [] then []
    else
      var n := |lines| - 1;
      var before := KeptIndices(lines[..n]);
      assert forall i :: 0 <= i < n ==> lines[..n][i] == lines[i];
      before + (if IsSubnetLine(lines[n]) then [n] else [])
  }

  /** The loaded list is exactly the kept lines, stripped, in their original
      relative order: its k-th subnet is the stripped text of the k-th kept
      line. Together with the contract of KeptIndices this says that lines
      are only removed, never reordered or duplicated. */
  lemma {:induction false} LoadSubnetsIsOrderedFilter(lines: seq<string>)
    ensures |LoadSubnets(lines)| == |KeptIndices(lines)|
    ensures forall k :: 0 <= k < |LoadSubnets(lines)| ==>
              LoadSubnets(lines)[k] == Strip(lines[KeptIndices(lines)[k]])
  {
    if lines != [] {
      var n := |lines| - 1;
      LoadSubnetsIsOrderedFilter(lines[..n]);
      assert forall i :: 0 <= i < n ==> lines[..n][i] == lines[i];
    }
  }

  /** Loading a file made of two parts loads each part and concatenates the
      results: the loader looks at each line on its own. */
  lemma {:induction false} LoadSubnetsAppend(a: seq<string>, b: seq<string>)
    ensures LoadSubnets(a + b) == LoadSubnets(a) + LoadSubnets(b)
    decreases |b|
  {
    if b != [] {
      var n := |b| - 1;
      assert (a + b)[..|a + b| - 1] == a + b[..n];
      LoadSubnetsAppend(a, b[..n]);
    } else {
      assert a + b == a;
    }
  }

  /** A one-line file loads to the stripped line when it is kept, and to
      nothing otherwise. */
  lemma LoadSubnetsSingle(line: string)
    ensures LoadSubnets([line]) == (if Keep(line) then [Strip(line)] else [])
    ensures LoadSubnets([line]) == [] <==> !HasNonSpace(line) || (|line| > 0 && line[0] == '#')
  {
    assert [line][..0] == [];
  }

  /** A '#' that is not in the first column does not make a comment: the
      line "  #x" survives as the subnet "#x". */
  lemma IndentedHashIsKept()
    ensures LoadSubnets(["  #x\n"]) == ["#x"]
  {
    var line := "  #x\n";
    assert !IsSpace(line[2]);
    LoadSubnetsSingle(line);
    assert LeadingSpaces(line) == 2 by {
      assert LeadingSpaces(line[2..]) == 0;
      assert LeadingSpaces(line[1..]) == 1 + LeadingSpaces(line[2..]);
    }
    assert Strip(line) == "#x";
  }

  /** Stripping a line whose text has no whitespace at either end gives that
      text, with or without its line terminator. */
  lemma StripTerminated(t: string)
    requires t != [] && IsStripped(t)
    ensures Strip(t) == t && Strip(t + "\n") == t
  {
    var u := t + "\n";
    assert u[..|u| - 1] == t;
    assert TrailingSpaces(t) == 0;
    assert TrailingSpaces(u) == 1;
    assert LeadingSpaces(t) == 0 && LeadingSpaces(u) == 0;
  }

  /** A line whose text is non-empty, has no whitespace at either end and
      does not start with '#' loads to that text, with or without its line
      terminator. */
  lemma PlainLineLoads(t: string)
    requires t != [] && IsStripped(t) && t[0] != '#'
    ensures LoadSubnets([t]) == [t] && LoadSubnets([t + "\n"]) == [t]
  {
    var u := t + "\n";
    StripTerminated(t);
    assert IsSubnetLine(t) && IsSubnetLine(u) by { assert !IsSpace(t[0]) && u[0] == t[0]; }
    LoadSubnetsSingle(t);
    LoadSubnetsSingle(u);
  }

  /** A comment line or a blank line loads to nothing. */
  lemma SkippedLineLoadsNothing(line: string)
    requires !HasNonSpace(line) || (|line| > 0 && line[0] == '#')
    ensures LoadSubnets([line]) == []
  {
    LoadSubnetsSingle(line);
  }

  /** Two skipped lines between two others add nothing to what those two
      load. */
  lemma {:induction false} SkippedLinesBetweenSubnets(a: string, b: string, c: string, d: string)
    requires LoadSubnets([b]) == [] && LoadSubnets([c]) == []
    ensures LoadSubnets([a, b, c, d]) == LoadSubnets([a]) + LoadSubnets([d])
  {
    assert LoadSubnets([a, b]) == LoadSubnets([a]) by {
      LoadSubnetsAppend([a], [b]);
      assert [a] + [b] == [a, b];
    }
    assert LoadSubnets([a, b, c]) == LoadSubnets([a]) by {
      LoadSubnetsAppend([a, b], [c]);
      assert [a, b] + [c] == [a, b, c];
    }
    LoadSubnetsAppend([a, b, c], [d]);
    assert [a, b, c] + [d] == [a, b, c, d];
  }

  /** A file holding a subnet, a comment, a blank line and another subnet
      loads to the two subnets, in order. */
  lemma CommentsAndBlanksAreSkipped()
    ensures LoadSubnets(["10.0.0.0/30\n", "# comment\n", "\n", "10.0.1.0/30"])
            == ["10.0.0.0/30", "10.0.1.0/30"]
  {
    var t, b, c, d := "10.0.0.0/30", "# comment\n", "\n", "10.0.1.0/30";
    assert LoadSubnets([t + "\n"]) == [t] by {
      PlainLineLoads(t);
    }
    assert LoadSubnets([d]) == [d] by {
      PlainLineLoads(d);
    }
    assert LoadSubnets([b]) == [] by {
      SkippedLineLoadsNothing(b);
    }
    assert LoadSubnets([c]) == [] by {
      assert IsSpace(c[0]);
      SkippedLineLoadsNothing(c);
    }
    SkippedLinesBetweenSubnets(t + "\n", b, c, d);
    assert t + "\n" == "10.0.0.0/30\n";
  }
}
