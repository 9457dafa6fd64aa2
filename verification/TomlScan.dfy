/**
 The quote-aware scans of the vendor-file reader: dropping a trailing comment and
 splitting an array at its top-level commas. Both decide whether a quote is escaped
 by counting the backslashes behind it.
 */
module TomlScan {
  import opened Common

  // ----- Whitespace -----

  /** The characters `String.prototype.trim` removes. */
  predicate IsSpace(c: char) {
    || '\t' <= c <= '\r' || c == ' ' || c == '\U{A0}' || c == '\U{1680}' || '\U{2000}' <= c <= '\U{200A}'
    || c in {'\U{2028}', '\U{2029}', '\U{202F}', '\U{205F}', '\U{3000}', '\U{FEFF}'}
  }

  predicate IsBlank(s: string) {
    forall i :: 0 <= i < |s| ==> IsSpace(s[i])
  }

  function TrimStart(s: string): (r: string)
    ensures |r| <= |s|
  {
    if s != "" && IsSpace(s[0]) then TrimStart(s[1..]) else s
  }

  function TrimEnd(s: string): (r: string)
    ensures |r| <= |s|
  {
    if s != "" && IsSpace(s[|s| - 1]) then TrimEnd(s[..|s| - 1]) else s
  }

  function Trim(s: string): (r: string)
    ensures |r| <= |s|
  {
    TrimEnd(TrimStart(s))
  }

  /** Neither end of the text is a space. */
  predicate Tight(s: string) {
    s != "" && !IsSpace(s[0]) && !IsSpace(s[|s| - 1])
  }

  /** What trimming takes off the front is blank. */
  lemma {:induction false} TrimStartSplits(s: string)
    ensures
      var n := |s| - |TrimStart(s)|;
      IsBlank(s[..n]) && s[n..] == TrimStart(s)
  {
    if s != "" && IsSpace(s[0]) {
      TrimStartSplits(s[1..]);
      BlankFront(s, |s| - |TrimStart(s)|);
    }
  }

  lemma BlankFront(s: string, n: nat)
    requires 0 < n <= |s| && IsSpace(s[0]) && IsBlank(s[1..][..n - 1])
    ensures IsBlank(s[..n]) && s[1..][n - 1..] == s[n..]
  {
    forall i | 0 <= i < n ensures IsSpace(s[..n][i]) {
      if i > 0 { assert s[..n][i] == s[1..][..n - 1][i - 1]; }
    }
  }

  /** What trimming takes off the end is blank. */
  lemma {:induction false} TrimEndSplits(s: string)
    ensures
      var n := |TrimEnd(s)|;
      IsBlank(s[n..]) && s[..n] == TrimEnd(s)
  {
    if s != "" && IsSpace(s[|s| - 1]) {
      TrimEndSplits(s[..|s| - 1]);
      BlankBack(s, |TrimEnd(s)|);
    }
  }

  lemma BlankBack(s: string, n: nat)
    requires n < |s| && IsSpace(s[|s| - 1]) && IsBlank(s[..|s| - 1][n..])
    ensures IsBlank(s[n..]) && s[..|s| - 1][..n] == s[..n]
  {
    forall i | 0 <= i < |s| - n ensures IsSpace(s[n..][i]) {
      if i < |s| - n - 1 { assert s[n..][i] == s[..|s| - 1][n..][i]; }
    }
  }

  lemma {:induction false} TrimStartSkips(before: string, s: string)
    requires IsBlank(before)
    ensures TrimStart(before + s) == TrimStart(s)
  {
    if before != "" {
      assert (before + s)[1..] == before[1..] + s;
      TrimStartSkips(before[1..], s);
    } else {
      assert before + s == s;
    }
  }

  lemma {:induction false} TrimEndSkips(s: string, after: string)
    requires IsBlank(after)
    ensures TrimEnd(s + after) == TrimEnd(s)
  {
    if after != "" {
      assert (s + after)[..|s + after| - 1] == s + after[..|after| - 1];
      TrimEndSkips(s, after[..|after| - 1]);
    } else {
      assert s + after == s;
    }
  }

  /** Trimming a padded tight text gives the text back. */
  lemma TrimPadded(before: string, s: string, after: string)
    requires IsBlank(before) && IsBlank(after) && Tight(s)
    ensures Trim(before + s + after) == s
  {
    assert before + s + after == before + (s + after);
    TrimStartSkips(before, s + after);
    TrimEndSkips(s, after);
  }

  lemma TrimBlank(s: string)
    requires IsBlank(s)
    ensures Trim(s) == ""
  {
    assert s + "" == s;
    TrimStartSkips(s, "");
  }

  /** Spaces after a text do not change what trimming leaves. */
  lemma {:induction false} TrimSkipsEnd(s: string, after: string)
    requires IsBlank(after)
    ensures Trim(s + after) == Trim(s)
  {
    if s == "" {
      assert s + after == after;
      TrimBlank(after);
    } else if IsSpace(s[0]) {
      assert (s + after)[1..] == s[1..] + after;
      TrimSkipsEnd(s[1..], after);
    } else {
      TrimEndSkips(s, after);
    }
  }

  // ----- The two scanners -----

  /** Inside a string or not, and whether an odd run of backslashes ends here. */
  datatype Scan = Scan(inString: bool, odd: bool)

  const START := Scan(false, false)

  /** One step of the backslash-counting scan. */
  function Next(m: Scan, c: char): Scan {
    Scan(if c == '"' && !m.odd then !m.inString else m.inString, c == '\\' && !m.odd)
  }

  function ScanTo(s: string, i: nat): Scan
    requires i <= |s|
  {
    if i == 0 then START else Next(ScanTo(s, i - 1), s[i - 1])
  }

  /** One step of a left-to-right scan, where a backslash means something only inside a string. */
  function NextEscape(m: Scan, c: char): Scan {
    if !m.inString then Scan(c == '"', false)
    else if m.odd then Scan(true, false)
    else Scan(c != '"', c == '\\')
  }

  function EscapesTo(s: string, i: nat): Scan
    requires i <= |s|
  {
    if i == 0 then START else NextEscape(EscapesTo(s, i - 1), s[i - 1])
  }

  /** The scan's flag is the parity the code counts. */
  lemma {:induction false} OddIsParity(s: string, i: nat)
    requires i <= |s|
    ensures ScanTo(s, i).odd <==> BackslashRun(s, 0, i) % 2 == 1
  {
    if i > 0 { OddIsParity(s, i - 1); }
  }

  /** An opening quote right behind an odd run of backslashes: the one thing the scans read differently. */
  predicate EscapedOpening(s: string, i: nat)
    requires i < |s|
  {
    s[i] == '"' && !EscapesTo(s, i).inString && BackslashRun(s, 0, i) % 2 == 1
  }

  ghost predicate AgreeTo(s: string, n: nat)
    requires n <= |s|
  {
    forall i :: 0 <= i <= n ==> ScanTo(s, i).inString == EscapesTo(s, i).inString
  }

  lemma {:induction false} FlagsAgree(s: string, n: nat)
    requires n <= |s| && AgreeTo(s, n)
    ensures EscapesTo(s, n).inString ==> EscapesTo(s, n).odd == ScanTo(s, n).odd
  {
    if n > 0 {
      FlagsAgree(s, n - 1);
      assert ScanTo(s, n).inString == EscapesTo(s, n).inString;
      assert ScanTo(s, n - 1).inString == EscapesTo(s, n - 1).inString;
    }
  }

  /**
   The backslash-counting scans and the left-to-right scanner call the same positions
   quoted exactly when no opening quote stands behind an odd run of backslashes.
   */
  lemma {:induction false} ScansAgree(s: string, n: nat)
    requires n <= |s|
    ensures AgreeTo(s, n) <==> forall i :: 0 <= i < n ==> !EscapedOpening(s, i)
  {
    if n > 0 {
      ScansAgree(s, n - 1);
      OddIsParity(s, n - 1);
      if AgreeTo(s, n - 1) {
        FlagsAgree(s, n - 1);
        assert ScanTo(s, n - 1).inString == EscapesTo(s, n - 1).inString;
        assert ScanTo(s, n).inString == EscapesTo(s, n).inString <==> !EscapedOpening(s, n - 1);
      }
      assert AgreeTo(s, n) <==> AgreeTo(s, n - 1) && ScanTo(s, n).inString == EscapesTo(s, n).inString;
    }
  }

  /** Such a text exists: the counting scan takes the quote of `\"#` for an escaped one. */
  lemma ScansCanDisagree()
    ensures !AgreeTo("\\\"#", 2)
  {
    assert EscapedOpening("\\\"#", 1);
    ScansAgree("\\\"#", 2);
  }

  // ----- Trailing comments -----

  /** The text up to the first `#` outside a string, scanning on from `m`. */
  function Stripped(s: string, m: Scan): (r: string)
  {
    if s == "" || (s[0] == '#' && !m.inString) then "" else [s[0]] + Stripped(s[1..], Next(m, s[0]))
  }

  method StripTrailingComment(line: string) returns (r: string)
    ensures r == Stripped(line, START)
  {
    var inString := false;
    var i := 0;
    while i < |line|
      invariant 0 <= i <= |line|
      invariant inString == ScanTo(line, i).inString
      invariant Stripped(line, START) == line[..i] + Stripped(line[i..], ScanTo(line, i))
    {
      OddIsParity(line, i);
      assert line[i..][0] == line[i] && line[i..][1..] == line[i + 1..];
      assert line[..i + 1] == line[..i] + [line[i]];
      var ch := line[i];
      if ch == '"' {
        var bs := CountBackslashes(line, i);
        if bs % 2 == 0 { inString := !inString; }
      } else if ch == '#' && !inString {
        return line[..i];
      }
      i := i + 1;
    }
    return line;
  }

  /** The inner loop of both scans. */
  method CountBackslashes(s: string, i: nat) returns (bs: nat)
    requires i <= |s|
    ensures bs == BackslashRun(s, 0, i)
  {
    bs := 0;
    var j := i - 1;
    while j >= 0 && s[j] == '\\'
      invariant -1 <= j < i && bs == i - 1 - j
      invariant BackslashRun(s, 0, i) == bs + BackslashRun(s, 0, j + 1)
    {
      bs := bs + 1;
      j := j - 1;
    }
  }

  /** What a comment's `#` cuts off, said without the scan: the first unquoted one. */
  lemma {:induction false} StrippedIsPrefix(s: string, i: nat)
    requires i <= |s|
    requires forall k :: 0 <= k < i ==> s[k] != '#' || ScanTo(s, k).inString
    ensures Stripped(s, START) == s[..i] + Stripped(s[i..], ScanTo(s, i))
    ensures i == |s| ==> Stripped(s, START) == s
    ensures i < |s| && s[i] == '#' && !ScanTo(s, i).inString ==> Stripped(s, START) == s[..i]
  {
    if i > 0 {
      StrippedIsPrefix(s, i - 1);
      assert s[i - 1..][0] == s[i - 1] && s[i - 1..][1..] == s[i..];
      assert s[..i] == s[..i - 1] + [s[i - 1]];
    }
  }

  // ----- Splitting -----

  /** A scan with its bracket depth; brackets count only outside strings. */
  datatype Place = Place(scan: Scan, depth: int)

  function Step(p: Place, c: char): Place {
    Place(Next(p.scan, c),
          if p.scan.inString then p.depth
          else if c == '[' then p.depth + 1
          else if c == ']' then p.depth - 1
          else p.depth)
  }

  function Top(depth: int): Place { Place(START, depth) }

  predicate Cuts(p: Place, c: char) { c == ',' && !p.scan.inString && p.depth == 0 }

  /** The pieces between the top-level commas, scanning on from `p`. */
  function Pieces(s: string, p: Place): (r: seq<string>)
    ensures r != []
    ensures forall i :: 0 <= i < |r| ==> |r[i]| <= |s|
  {
    if s == "" then [""]
    else
      var rest := Pieces(s[1..], Step(p, s[0]));
      if Cuts(p, s[0]) then [""] + rest else Prepend([s[0]], rest)
  }

  function Prepend(s: string, pieces: seq<string>): (r: seq<string>)
    requires pieces != []
    ensures |r| == |pieces|
  {
    [s + pieces[0]] + pieces[1..]
  }

  lemma PrependTwice(a: string, b: string, pieces: seq<string>)
    requires pieces != []
    ensures Prepend(a, Prepend(b, pieces)) == Prepend(a + b, pieces)
  {
    assert a + (b + pieces[0]) == a + b + pieces[0];
  }

  lemma PrependNothing(pieces: seq<string>)
    requires pieces != []
    ensures Prepend("", pieces) == pieces
  {
    assert "" + pieces[0] == pieces[0];
  }

  lemma PrependToEmpty(s: string, pieces: seq<string>)
    ensures Prepend(s, [""] + pieces) == [s] + pieces
  {
    assert s + "" == s;
    assert ([""] + pieces)[1..] == pieces;
  }

  /** The pieces that survive the filter, as they are handed on: trimmed. */
  function Cells(pieces: seq<string>): (r: seq<string>)
    ensures |r| <= |pieces|
    ensures forall i :: 0 <= i < |r| ==> exists j :: 0 <= j < |pieces| && |r[i]| <= |pieces[j]|
  {
    if pieces == [] then []
    else
      var rest := Cells(pieces[1..]);
      if |Trim(pieces[0])| > 0 then [Trim(pieces[0])] + rest else rest
  }

  function NonBlank(pieces: seq<string>): seq<string> {
    if pieces == [] then []
    else if |Trim(pieces[0])| > 0 then [pieces[0]] + NonBlank(pieces[1..])
    else NonBlank(pieces[1..])
  }

  function PlaceAt(s: string, i: nat): (p: Place)
    requires i <= |s|
    ensures p.scan == ScanTo(s, i)
  {
    if i == 0 then Top(0) else Step(PlaceAt(s, i - 1), s[i - 1])
  }

  /** The pieces, with everything before `i` already looked at. */
  ghost predicate SplitSoFar(src: string, parts: seq<string>, start: nat, i: nat)
    requires start <= i <= |src|
  {
    Pieces(src, Top(0)) == parts + Prepend(src[start..i], Pieces(src[i..], PlaceAt(src, i)))
  }

  lemma SplitStarts(src: string)
    ensures SplitSoFar(src, [], 0, 0)
  {
    assert src[0..] == src;
    PrependNothing(Pieces(src, Top(0)));
  }

  lemma SplitCut(src: string, parts: seq<string>, start: nat, i: nat)
    requires start <= i < |src| && SplitSoFar(src, parts, start, i) && Cuts(PlaceAt(src, i), src[i])
    ensures SplitSoFar(src, parts + [src[start..i]], i + 1, i + 1)
  {
    var rest := Pieces(src[i + 1..], PlaceAt(src, i + 1));
    assert src[i..][0] == src[i] && src[i..][1..] == src[i + 1..];
    PrependNothing(rest);
    PrependToEmpty(src[start..i], rest);
    assert src[i + 1..i + 1] == "";
    assert parts + ([src[start..i]] + rest) == parts + [src[start..i]] + rest;
  }

  lemma SplitContinues(src: string, parts: seq<string>, start: nat, i: nat)
    requires start <= i < |src| && SplitSoFar(src, parts, start, i) && !Cuts(PlaceAt(src, i), src[i])
    ensures SplitSoFar(src, parts, start, i + 1)
  {
    var rest := Pieces(src[i + 1..], PlaceAt(src, i + 1));
    assert src[i..][0] == src[i] && src[i..][1..] == src[i + 1..];
    PrependTwice(src[start..i], [src[i]], rest);
    assert src[start..i + 1] == src[start..i] + [src[i]];
  }

  lemma SplitEnds(src: string, parts: seq<string>, start: nat)
    requires start <= |src| && SplitSoFar(src, parts, start, |src|)
    ensures Pieces(src, Top(0)) == parts + [src[start..]]
  {
    assert src[start..|src|] == src[start..];
    assert src[|src|..] == "" && [""] + [] == [""];
    PrependToEmpty(src[start..], []);
  }

  /** One turn of the split loop's bookkeeping. */
  lemma SplitStep(src: string, parts: seq<string>, start: nat, i: nat)
    requires start <= i < |src| && SplitSoFar(src, parts, start, i)
    ensures Cuts(PlaceAt(src, i), src[i]) ==> SplitSoFar(src, parts + [src[start..i]], i + 1, i + 1)
    ensures !Cuts(PlaceAt(src, i), src[i]) ==> SplitSoFar(src, parts, start, i + 1)
  {
    if Cuts(PlaceAt(src, i), src[i]) {
      SplitCut(src, parts, start, i);
    } else {
      SplitContinues(src, parts, start, i);
    }
  }

  lemma PlaceStep(src: string, i: nat)
    requires i < |src|
    ensures
      var p, next := PlaceAt(src, i), PlaceAt(src, i + 1);
      && next.scan.inString == (if src[i] == '"' && BackslashRun(src, 0, i) % 2 == 0 then !p.scan.inString
                                else p.scan.inString)
      && next.depth == (if p.scan.inString then p.depth
                        else if src[i] == '[' then p.depth + 1
                        else if src[i] == ']' then p.depth - 1
                        else p.depth)
  {
    OddIsParity(src, i);
  }

  /** How one character moves the loop's flags, and whether the part ends at it. */
  method SplitMove(src: string, i: nat, inString: bool, depth: int) returns (inside: bool, deep: int, cut: bool)
    requires i < |src| && inString == PlaceAt(src, i).scan.inString && depth == PlaceAt(src, i).depth
    ensures inside == PlaceAt(src, i + 1).scan.inString && deep == PlaceAt(src, i + 1).depth
    ensures cut == Cuts(PlaceAt(src, i), src[i])
  {
    PlaceStep(src, i);
    inside, deep, cut := inString, depth, false;
    var ch := src[i];
    if ch == '"' {
      var bs := CountBackslashes(src, i);
      if bs % 2 == 0 { inside := !inString; }
    } else if !inString {
      if ch == '[' {
        deep := depth + 1;
      } else if ch == ']' {
        deep := depth - 1;
      } else if ch == ',' && depth == 0 {
        cut := true;
      }
    }
  }

  /** The parts so far, the next part's start and the loop's flags. */
  datatype Split = Split(parts: seq<string>, start: nat, inString: bool, depth: int)

  ghost predicate SplitInv(src: string, s: Split, i: nat) {
    && s.start <= i <= |src| && s.inString == PlaceAt(src, i).scan.inString && s.depth == PlaceAt(src, i).depth
    && SplitSoFar(src, s.parts, s.start, i)
  }

  /** One turn of the loop. */
  method SplitTurn(src: string, s: Split, i: nat) returns (s': Split)
    requires i < |src| && SplitInv(src, s, i)
    ensures SplitInv(src, s', i + 1)
  {
    SplitStep(src, s.parts, s.start, i);
    var inside, deep, cut := SplitMove(src, i, s.inString, s.depth);
    if cut {
      s' := Split(s.parts + [src[s.start..i]], i + 1, inside, deep);
    } else {
      s' := Split(s.parts, s.start, inside, deep);
    }
  }

  method SplitTopLevel(src: string) returns (r: seq<string>)
    ensures r == NonBlank(Pieces(src, Top(0)))
  {
    SplitStarts(src);
    var s := Split([], 0, false, 0);
    for i := 0 to |src|
      invariant SplitInv(src, s, i)
    {
      s := SplitTurn(src, s, i);
    }
    SplitEnds(src, s.parts, s.start);
    r := DropBlank(s.parts + [src[s.start..]]);
  }

  /** The closing `filter`. */
  method DropBlank(parts: seq<string>) returns (r: seq<string>)
    ensures r == NonBlank(parts)
  {
    r := [];
    var k := 0;
    while k < |parts|
      invariant 0 <= k <= |parts|
      invariant NonBlank(parts) == r + NonBlank(parts[k..])
    {
      assert parts[k..][0] == parts[k] && parts[k..][1..] == parts[k + 1..];
      if |Trim(parts[k])| > 0 { r := r + [parts[k]]; }
      k := k + 1;
    }
  }

  /** Trimming what the filter kept is what the array reader parses. */
  lemma {:induction false} CellsAreTrimmed(pieces: seq<string>)
    ensures |Cells(pieces)| == |NonBlank(pieces)|
    ensures forall i :: 0 <= i < |Cells(pieces)| ==> Cells(pieces)[i] == Trim(NonBlank(pieces)[i])
  {
    if pieces != [] {
      CellsAreTrimmed(pieces[1..]);
      var cells, kept := Cells(pieces[1..]), NonBlank(pieces[1..]);
      if |Trim(pieces[0])| > 0 {
        assert Cells(pieces) == [Trim(pieces[0])] + cells && NonBlank(pieces) == [pieces[0]] + kept;
      } else {
        assert Cells(pieces) == cells && NonBlank(pieces) == kept;
      }
    }
  }
}
