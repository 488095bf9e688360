/** The chart title and the image file name derived from it (update.py:124,
    143): `re.sub('(/UNIX|Amazon|[ \(\)])', '', title) + '.png'`. */
module Filename {
  import opened Rows

  /** The title of the chart of one instance type. */
  function Title(instanceType: string, productDescription: string): string
  {
    instanceType + " - " + productDescription
  }

  /** The single characters the pattern deletes. */
  predicate Deleted(c: char)
  {
    c == ' ' || c == '(' || c == ')'
  }

  /** The characters that can be part of a match of the pattern. */
  predicate InPattern(c: char)
  {
    || Deleted(c)
    || c == '/' || c == 'U' || c == 'N' || c == 'I' || c == 'X'
    || c == 'A' || c == 'm' || c == 'a' || c == 'z' || c == 'o' || c == 'n'
  }

  /** `s` starts with `/UNIX`. */
  predicate StartsWithUnix(s: string)
  {
    |s| >= 5 && s[0] == '/' && s[1] == 'U' && s[2] == 'N' && s[3] == 'I' && s[4] == 'X'
  }

  /** `s` starts with `Amazon`. */
  predicate StartsWithAmazon(s: string)
  {
    |s| >= 6 && s[0] == 'A' && s[1] == 'm' && s[2] == 'a' && s[3] == 'z' && s[4] == 'o' && s[5] == 'n'
  }

  /** One left-to-right pass of the substitution: at each position the
      alternatives are tried in order (`/UNIX`, then `Amazon`, then one of
      space and the two parentheses); a match is deleted and the scan goes on
      after it, otherwise the character is kept. */
  function StripDecorations(s: string): string
    decreases |s|
  {
    if s == [] then []
    else if StartsWithUnix(s) then StripDecorations(s[5..])
    else if StartsWithAmazon(s) then StripDecorations(s[6..])
    else if Deleted(s[0]) then StripDecorations(s[1..])
    else [s[0]] + StripDecorations(s[1..])
  }

  /** No space or parenthesis survives. */
  lemma {:induction false} StripDecorationsRemovesDeleted(s: string)
    ensures forall i :: 0 <= i < |StripDecorations(s)| ==> !Deleted(StripDecorations(s)[i])
    decreases |s|
  {
    if s == [] {
    } else if StartsWithUnix(s) {
      StripDecorationsRemovesDeleted(s[5..]);
    } else if StartsWithAmazon(s) {
      StripDecorationsRemovesDeleted(s[6..]);
    } else if Deleted(s[0]) {
      StripDecorationsRemovesDeleted(s[1..]);
    } else {
      StripDecorationsRemovesDeleted(s[1..]);
      assert StripDecorations(s) == [s[0]] + StripDecorations(s[1..]);
    }
  }

  /** The kept characters keep their relative order. */
  lemma {:induction false} StripDecorationsKeepsOrder(s: string)
    ensures IsSubsequence(StripDecorations(s), s)
    decreases |s|
  {
    if s == [] {
    } else if StartsWithUnix(s) {
      StripDecorationsKeepsOrder(s[5..]);
      SubsequenceOfSuffix(StripDecorations(s[5..]), s, 5);
    } else if StartsWithAmazon(s) {
      StripDecorationsKeepsOrder(s[6..]);
      SubsequenceOfSuffix(StripDecorations(s[6..]), s, 6);
    } else if Deleted(s[0]) {
      StripDecorationsKeepsOrder(s[1..]);
      SubsequenceOfSuffix(StripDecorations(s[1..]), s, 1);
    } else {
      StripDecorationsKeepsOrder(s[1..]);
      var r := StripDecorations(s[1..]);
      assert ([s[0]] + r)[1..] == r;
    }
  }

  /** The number of occurrences of `c` in `s`. */
  function Occurrences(s: string, c: char): nat
  {
    if s == [] then 0 else (if s[0] == c then 1 else 0) + Occurrences(s[1..], c)
  }

  /** Dropping a prefix that does not contain `c` keeps the count of `c`. */
  lemma {:induction false} OccurrencesAfterPrefix(s: string, k: nat, c: char)
    requires k <= |s|
    requires forall i :: 0 <= i < k ==> s[i] != c
    ensures Occurrences(s, c) == Occurrences(s[k..], c)
    decreases k
  {
    if k > 0 {
      OccurrencesAfterPrefix(s[1..], k - 1, c);
      assert s[1..][k - 1..] == s[k..];
    }
  }

  /** Only characters that occur in the pattern are ever deleted: every
      other character occurs as often in the result as in the title. */
  lemma {:induction false} StripDecorationsKeepsOtherCharacters(s: string, c: char)
    requires !InPattern(c)
    ensures Occurrences(StripDecorations(s), c) == Occurrences(s, c)
    decreases |s|
  {
    if s == [] {
    } else if StartsWithUnix(s) {
      StripDecorationsKeepsOtherCharacters(s[5..], c);
      OccurrencesAfterPrefix(s, 5, c);
    } else if StartsWithAmazon(s) {
      StripDecorationsKeepsOtherCharacters(s[6..], c);
      OccurrencesAfterPrefix(s, 6, c);
    } else if Deleted(s[0]) {
      StripDecorationsKeepsOtherCharacters(s[1..], c);
    } else {
      StripDecorationsKeepsOtherCharacters(s[1..], c);
      var r := StripDecorations(s[1..]);
      assert ([s[0]] + r)[1..] == r;
    }
  }

  /** The image file of one chart. */
  function ChartFilename(title: string): (name: string)
    ensures |name| >= 4 && name[|name| - 4..] == ".png"
    ensures forall i :: 0 <= i < |name| - 4 ==> !Deleted(name[i])
  {
    var stem := StripDecorations(title);
    StripDecorationsRemovesDeleted(title);
    stem + ".png"
  }

  /** A character at which no alternative of the pattern can match. */
  predicate StartsNoMatch(c: char)
  {
    c != '/' && c != 'A' && !Deleted(c)
  }

  /** A prefix none of whose characters can start a match is kept as it is;
      a title with no such character comes through unchanged. */
  lemma {:induction false} StripDecorationsKeepsPrefix(p: string, rest: string)
    requires forall i :: 0 <= i < |p| ==> StartsNoMatch(p[i])
    ensures StripDecorations(p + rest) == p + StripDecorations(rest)
    decreases |p|
  {
    if p == [] {
      assert p + rest == rest;
    } else {
      var s := p + rest;
      assert s[0] == p[0] && s[1..] == p[1..] + rest;
      StripDecorationsKeepsPrefix(p[1..], rest);
      assert StripDecorations(s) == [p[0]] + StripDecorations(p[1..] + rest);
      assert [p[0]] + (p[1..] + StripDecorations(rest)) == p + StripDecorations(rest);
    }
  }

  lemma StripUnixStep(rest: string)
    ensures StripDecorations("/UNIX" + rest) == StripDecorations(rest)
  {
    var s := "/UNIX" + rest;
    assert StartsWithUnix(s) && s[5..] == rest;
  }

  lemma StripAmazonStep(rest: string)
    ensures StripDecorations("Amazon" + rest) == StripDecorations(rest)
  {
    var s := "Amazon" + rest;
    assert !StartsWithUnix(s) && StartsWithAmazon(s) && s[6..] == rest;
  }

  lemma StripDeletedStep(c: char, rest: string)
    requires Deleted(c)
    ensures StripDecorations([c] + rest) == StripDecorations(rest)
  {
    var s := [c] + rest;
    assert !StartsWithUnix(s) && !StartsWithAmazon(s) && s[1..] == rest;
  }

  /** " - Linux/UNIX (Amazon VPC)", assembled from the pieces the pattern
      sees one after the other. */
  function DescriptionPieces(): string
  {
    [' '] + ("-" + ([' '] + ("Linux" + ("/UNIX" + ([' '] + (['('] + ("Amazon" + ([' '] + ("VPC" + [')'])))))))))
  }

  /** Stripping the product description part of the script's titles, one
      match or kept character at a time. */
  lemma DescriptionPiecesStripped()
    ensures StripDecorations(DescriptionPieces()) == "-" + ("Linux" + ("VPC" + []))
  {
    var r0: string := [')'];
    var r1 := "VPC" + r0;
    var r2 := [' '] + r1;
    var r3 := "Amazon" + r2;
    var r4 := ['('] + r3;
    var r5 := [' '] + r4;
    var r6 := "/UNIX" + r5;
    var r7 := "Linux" + r6;
    var r8 := [' '] + r7;
    var r9 := "-" + r8;
    StripDeletedStep(')', []);
    assert r0 == [')'] + [];
    StripDecorationsKeepsPrefix("VPC", r0);
    StripDeletedStep(' ', r1);
    StripAmazonStep(r2);
    StripDeletedStep('(', r3);
    StripDeletedStep(' ', r4);
    StripUnixStep(r5);
    StripDecorationsKeepsPrefix("Linux", r6);
    StripDeletedStep(' ', r7);
    StripDecorationsKeepsPrefix("-", r8);
    StripDeletedStep(' ', r9);
  }

  lemma DescriptionPiecesSpelled()
    ensures DescriptionPieces() == " - Linux/UNIX (Amazon VPC)"
    ensures "-" + ("Linux" + ("VPC" + [])) == "-LinuxVPC"
  {
  }

  lemma ScriptTitleSpelled()
    ensures Title("g2.2xlarge", "Linux/UNIX (Amazon VPC)") == "g2.2xlarge" + " - Linux/UNIX (Amazon VPC)"
    ensures "g2.2xlarge" + "-LinuxVPC" + ".png" == "g2.2xlarge-LinuxVPC.png"
  {
  }

  lemma InstanceTypeKept(rest: string)
    ensures StripDecorations("g2.2xlarge" + rest) == "g2.2xlarge" + StripDecorations(rest)
  {
    StripDecorationsKeepsPrefix("g2.2xlarge", rest);
  }

  /** The chart of the first instance type of the script. */
  lemma ScriptFilename()
    ensures ChartFilename(Title("g2.2xlarge", "Linux/UNIX (Amazon VPC)")) == "g2.2xlarge-LinuxVPC.png"
  {
    var description := " - Linux/UNIX (Amazon VPC)";
    ScriptTitleSpelled();
    DescriptionPiecesStripped();
    DescriptionPiecesSpelled();
    InstanceTypeKept(description);
  }
}
