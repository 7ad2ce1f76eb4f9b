/** The Python string operations the converter relies on: `pat in s`,
    `s.split(sep)`, `s.replace(" ", "")` and `s.replace(",", ".")`. */
module Text {
  import opened Results

  /** `pat` occurs in `s` starting at index `i`. */
  predicate OccursAt(s: string, pat: string, i: int) {
    0 <= i && i + |pat| <= |s| && s[i..i + |pat|] == pat
  }

  /** Python's `pat in s`. */
  predicate Contains(s: string, pat: string) {
    exists i | 0 <= i <= |s| - |pat| :: OccursAt(s, pat, i)
  }

  lemma OccursAtShift(s: string, pat: string, j: int)
    requires |s| > 0 && 0 <= j
    ensures OccursAt(s[1..], pat, j) <==> OccursAt(s, pat, j + 1)
  {
    if 0 <= j && j + |pat| <= |s| - 1 {
      assert s[1..][j..j + |pat|] == s[j + 1..j + 1 + |pat|];
    }
  }

  /** The index of the first occurrence of `pat` in `s` (Python's `s.find(pat)`). */
  function Find(s: string, pat: string): Option<nat>
    decreases |s|
  {
    if |s| < |pat| then None
    else if s[..|pat|] == pat then Some(0)
    else match Find(s[1..], pat)
      case None => None
      case Some(i) => Some(i + 1)
  }

  /** `Find` yields the first occurrence, and nothing exactly when there is none. */
  lemma {:induction false} FindFirst(s: string, pat: string)
    ensures Find(s, pat).Some? ==> OccursAt(s, pat, Find(s, pat).value)
    ensures Find(s, pat).Some? ==> forall j :: 0 <= j < Find(s, pat).value ==> !OccursAt(s, pat, j)
    ensures Find(s, pat).None? <==> !Contains(s, pat)
    decreases |s|
  {
    if |s| >= |pat| && !OccursAt(s, pat, 0) {
      FindFirst(s[1..], pat);
      forall j | 0 <= j ensures OccursAt(s[1..], pat, j) <==> OccursAt(s, pat, j + 1) {
        OccursAtShift(s, pat, j);
      }
      match Find(s[1..], pat)
      case None =>
        forall i | 0 <= i <= |s| - |pat| ensures !OccursAt(s, pat, i) {
          if i > 0 { assert !OccursAt(s[1..], pat, i - 1); }
        }
      case Some(i) =>
        forall j | 0 < j < i + 1 ensures !OccursAt(s, pat, j) {
          assert !OccursAt(s[1..], pat, j - 1);
        }
    }
  }

  /** Python's `sep.join(pieces)`, for a list of at least one piece. */
  function Join(pieces: seq<string>, sep: string): string
    requires |pieces| >= 1
  {
    if |pieces| == 1 then pieces[0] else pieces[0] + sep + Join(pieces[1..], sep)
  }

  lemma NotInPrefix(s: string, pat: string, i: nat)
    requires |pat| > 0 && i <= |s|
    requires forall j :: 0 <= j < i ==> !OccursAt(s, pat, j)
    ensures !Contains(s[..i], pat)
  {
    forall j | 0 <= j <= i - |pat| ensures !OccursAt(s[..i], pat, j) {
      assert s[..i][j..j + |pat|] == s[j..j + |pat|];
      assert !OccursAt(s, pat, j);
    }
  }

  /** Python's `s.split(sep)`: the pieces between the non-overlapping
      occurrences of `sep`, scanned from the left. */
  function Split(s: string, sep: string): (r: seq<string>)
    requires |sep| > 0
    ensures |r| >= 1
    ensures |r| >= 2 ==> |r[0]| + |sep| + |r[1]| <= |s|
    decreases |s|
  {
    FindFirst(s, sep);
    match Find(s, sep)
    case None => [s]
    case Some(i) => [s[..i]] + Split(s[i + |sep|..], sep)
  }

  /** The string splits into more than one piece exactly when it contains the separator. */
  lemma SplitCount(s: string, sep: string)
    requires |sep| > 0
    ensures |Split(s, sep)| == 1 <==> !Contains(s, sep)
  {
    FindFirst(s, sep);
  }

  /** Joining the pieces with the separator gives back the string. */
  lemma {:induction false} SplitJoin(s: string, sep: string)
    requires |sep| > 0
    ensures Join(Split(s, sep), sep) == s
    decreases |s|
  {
    FindFirst(s, sep);
    match Find(s, sep)
    case None =>
    case Some(i) =>
      SplitJoin(s[i + |sep|..], sep);
      assert s == s[..i] + sep + s[i + |sep|..];
  }

  /** No piece contains the separator. */
  lemma {:induction false} SplitPiecesFree(s: string, sep: string)
    requires |sep| > 0
    ensures forall k :: 0 <= k < |Split(s, sep)| ==> !Contains(Split(s, sep)[k], sep)
    decreases |s|
  {
    FindFirst(s, sep);
    match Find(s, sep)
    case None =>
    case Some(i) =>
      SplitPiecesFree(s[i + |sep|..], sep);
      NotInPrefix(s, sep, i);
      SplitOnFind(s, sep, i);
      FreePiecesCons(Split(s, sep), sep);
  }

  /** The first piece ends at the first occurrence; the others are the pieces of what follows it. */
  lemma SplitOnFind(s: string, sep: string, i: nat)
    requires |sep| > 0 && Find(s, sep) == Some(i) && i + |sep| <= |s|
    ensures Split(s, sep)[0] == s[..i] && Split(s, sep)[1..] == Split(s[i + |sep|..], sep)
  {
    var rest := Split(s[i + |sep|..], sep);
    assert Split(s, sep) == [s[..i]] + rest;
    assert ([s[..i]] + rest)[1..] == rest;
  }

  lemma FreePiecesCons(pieces: seq<string>, sep: string)
    requires |pieces| >= 1 && !Contains(pieces[0], sep)
    requires forall k :: 0 <= k < |pieces[1..]| ==> !Contains(pieces[1..][k], sep)
    ensures forall k :: 0 <= k < |pieces| ==> !Contains(pieces[k], sep)
  {
    forall k | 0 < k < |pieces| ensures !Contains(pieces[k], sep) {
      assert pieces[k] == pieces[1..][k - 1];
    }
  }

  /** `s` does not hold the character `c`. */
  predicate Avoids(s: string, c: char) {
    forall k :: 0 <= k < |s| ==> s[k] != c
  }

  lemma NoOccurrence(s: string, pat: string)
    requires |pat| > 0
    requires Avoids(s, pat[0])
    ensures !Contains(s, pat)
  {
    forall i | 0 <= i <= |s| - |pat| ensures !OccursAt(s, pat, i) {
      assert s[i..i + |pat|][0] == s[i];
    }
  }

  /** When `sep` cannot start inside `a`, its first occurrence in
      `a + sep + b` is right after `a`. */
  lemma FindAfter(a: string, sep: string, b: string)
    requires |sep| > 0
    requires Avoids(a, sep[0])
    ensures Find(a + sep + b, sep) == Some(|a|)
  {
    var s := a + sep + b;
    FindFirst(s, sep);
    assert s[|a|..|a| + |sep|] == sep;
    assert OccursAt(s, sep, |a|);
    forall k | 0 <= k < |a| ensures !OccursAt(s, sep, k) {
      assert s[k..k + |sep|][0] == a[k];
    }
  }

  /** `a + sep + b` splits at the `sep` after `a`; what follows is split in turn. */
  lemma SplitAfter(a: string, sep: string, b: string)
    requires |sep| > 0
    requires Avoids(a, sep[0])
    ensures Split(a + sep + b, sep) == [a] + Split(b, sep)
  {
    var s := a + sep + b;
    FindAfter(a, sep, b);
    assert s[..|a|] == a;
    assert s[|a| + |sep|..] == b;
  }

  /** The single piece of a string that does not contain the separator. */
  lemma SplitWhole(s: string, sep: string)
    requires |sep| > 0 && !Contains(s, sep)
    ensures Split(s, sep) == [s]
  {
    FindFirst(s, sep);
  }

  /** Python's `s.replace(" ", "")`. */
  function RemoveSpaces(s: string): (r: string)
    ensures |r| <= |s|
    ensures forall k :: 0 <= k < |r| ==> r[k] != ' '
  {
    if s == [] then []
    else if s[0] == ' ' then RemoveSpaces(s[1..])
    else [s[0]] + RemoveSpaces(s[1..])
  }

  /** Removing the spaces keeps every other character and adds none. */
  lemma {:induction false} RemoveSpacesMembers(s: string)
    ensures forall c :: c in RemoveSpaces(s) <==> c in s && c != ' '
  {
    if s != [] {
      RemoveSpacesMembers(s[1..]);
      assert forall c :: c in s <==> c == s[0] || c in s[1..];
    }
  }

  lemma {:induction false} RemoveSpacesConcat(a: string, b: string)
    ensures RemoveSpaces(a + b) == RemoveSpaces(a) + RemoveSpaces(b)
  {
    if a == [] {
      assert a + b == b;
    } else {
      assert (a + b)[0] == a[0] && (a + b)[1..] == a[1..] + b;
      RemoveSpacesConcat(a[1..], b);
    }
  }

  /** Python's `s.replace(from, to)` for one-character `from` and `to`. */
  function ReplaceChar(s: string, from: char, to: char): (r: string)
    ensures |r| == |s|
    ensures forall k :: 0 <= k < |s| ==> r[k] == if s[k] == from then to else s[k]
  {
    if s == [] then [] else [if s[0] == from then to else s[0]] + ReplaceChar(s[1..], from, to)
  }

  /** Replacing one character by another, neither a space, commutes with removing the spaces. */
  lemma {:induction false} ReplaceCharRemoveSpaces(s: string, from: char, to: char)
    requires from != ' ' && to != ' '
    ensures RemoveSpaces(ReplaceChar(s, from, to)) == ReplaceChar(RemoveSpaces(s), from, to)
  {
    if s != [] {
      var t := ReplaceChar(s, from, to);
      assert t[1..] == ReplaceChar(s[1..], from, to);
      ReplaceCharRemoveSpaces(s[1..], from, to);
    }
  }

  /** Replacing a character twice changes nothing more than replacing it once. */
  lemma ReplaceCharTwice(s: string, from: char, to: char)
    ensures ReplaceChar(ReplaceChar(s, from, to), from, to) == ReplaceChar(s, from, to)
  {
    var once := ReplaceChar(s, from, to);
    var twice := ReplaceChar(once, from, to);
    forall k | 0 <= k < |s| ensures twice[k] == once[k] {
    }
  }
}
