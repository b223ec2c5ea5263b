/** The string-aware brace scanner `firstJSONObject`, against the grammar. */
module JsonScan {
  import opened Options
  import opened JsonGrammar
  import opened Strings

  // ----- the scanner's state --------------------------------------------------------------

  datatype State = State(depth: int, inString: bool, escaped: bool)

  function Step(s: State, c: char): State {
    if s.inString then
      if s.escaped then s.(escaped := false)
      else if c == '\\' then s.(escaped := true)
      else if c == '"' then s.(inString := false)
      else s
    else if c == '"' then s.(inString := true)
    else if c == '{' then s.(depth := s.depth + 1)
    else if c == '}' then s.(depth := s.depth - 1)
    else s
  }

  function Scan(s: State, text: string): State {
    if text == "" then s else Step(Scan(s, text[..|text| - 1]), text[|text| - 1])
  }

  lemma {:induction false} ScanAppend(s: State, a: string, b: string)
    ensures Scan(s, a + b) == Scan(Scan(s, a), b)
    decreases |b|
  {
    if b == "" {
      assert a + b == a;
    } else {
      assert (a + b)[..|a + b| - 1] == a + b[..|b| - 1];
      ScanAppend(s, a, b[..|b| - 1]);
    }
  }

  /** Outside strings at a depth. */
  function Outside(depth: int): State {
    State(depth, false, false)
  }

  /** Read outside strings, `text` comes back to the depth it started at and never
      goes below it. */
  ghost predicate Balanced(text: string) {
    forall d :: Keeps(d, text)
  }

  ghost predicate Keeps(d: int, text: string) {
    && Scan(Outside(d), text) == Outside(d)
    && forall k | 0 <= k <= |text| :: Scan(Outside(d), text[..k]).depth >= d
  }

  // ----- every construct of the grammar is balanced ------------------------------------------

  lemma KeepsAppend(d: int, a: string, b: string)
    requires Keeps(d, a) && Keeps(d, b)
    ensures Keeps(d, a + b)
  {
    ScanAppend(Outside(d), a, b);
    forall k | 0 <= k <= |a + b|
      ensures Scan(Outside(d), (a + b)[..k]).depth >= d
    {
      if k <= |a| {
        assert (a + b)[..k] == a[..k];
      } else {
        assert (a + b)[..k] == a + b[..k - |a|];
        ScanAppend(Outside(d), a, b[..k - |a|]);
      }
    }
  }

  lemma BalancedAppend(a: string, b: string)
    requires Balanced(a) && Balanced(b)
    ensures Balanced(a + b)
  {
    forall d {
      KeepsAppend(d, a, b);
    }
  }

  predicate Plain(c: char) {
    c != '"' && c != '{' && c != '}'
  }

  lemma {:induction false} PlainIsBalanced(text: string)
    requires forall i | 0 <= i < |text| :: Plain(text[i])
    ensures Balanced(text)
    decreases |text|
  {
    if text != "" {
      var front, c := text[..|text| - 1], text[|text| - 1];
      PlainIsBalanced(front);
      forall d ensures Keeps(d, [c]) {
        assert [c][..0] == "" && [c][..1] == [c];
      }
      BalancedAppend(front, [c]);
      assert front + [c] == text;
    } else {
      forall d ensures Keeps(d, text) {
      }
    }
  }

  lemma ScanNext(s: State, text: string, k: nat)
    requires k < |text|
    ensures Scan(s, text[..k + 1]) == Step(Scan(s, text[..k]), text[k])
  {
    assert text[..k + 1][..k] == text[..k];
  }

  /** Read inside a string literal, `text` leaves the depth alone and the literal open. */
  ghost predicate StaysInside(d: int, text: string) {
    && Scan(State(d, true, false), text) == State(d, true, false)
    && forall k | 0 <= k <= |text| :: InsideAt(d, Scan(State(d, true, false), text[..k]))
  }

  predicate InsideAt(d: int, s: State) {
    s.depth == d && s.inString
  }

  lemma StaysInsideAppend(d: int, a: string, b: string)
    requires StaysInside(d, a) && StaysInside(d, b)
    ensures StaysInside(d, a + b)
  {
    var s := State(d, true, false);
    ScanAppend(s, a, b);
    forall k | 0 <= k <= |a + b|
      ensures InsideAt(d, Scan(s, (a + b)[..k]))
    {
      if k <= |a| {
        assert (a + b)[..k] == a[..k];
      } else {
        assert (a + b)[..k] == a + b[..k - |a|];
        ScanAppend(s, a, b[..k - |a|]);
      }
    }
  }

  lemma {:induction false} StringBodyStaysInside(d: int, body: string)
    requires IsStringBody(body)
    ensures StaysInside(d, body)
    decreases |body|
  {
    if body == "" {
    } else {
      var n := if body[0] != '\\' then 1 else if body[1] == 'u' then 6 else 2;
      CharacterStaysInside(d, body[..n]);
      StringBodyStaysInside(d, body[n..]);
      StaysInsideAppend(d, body[..n], body[n..]);
      assert body[..n] + body[n..] == body;
    }
  }

  /** One character of a string literal: itself, a two-character escape or `\uXXXX`. */
  lemma CharacterStaysInside(d: int, head: string)
    requires |head| in {1, 2, 6} && head[0] != '"' && (head[0] == '\\' <==> |head| > 1)
    requires |head| == 6 ==> head[1] == 'u' && forall i | 2 <= i < 6 :: IsHexDigit(head[i])
    ensures StaysInside(d, head)
  {
    var s := State(d, true, false);
    assert head[..0] == "" && head[..|head|] == head;
    ScanNext(s, head, 0);
    if |head| > 1 {
      ScanNext(s, head, 1);
    }
    if |head| == 6 {
      ScanNext(s, head, 2);
      ScanNext(s, head, 3);
      ScanNext(s, head, 4);
      ScanNext(s, head, 5);
    }
  }

  lemma StringIsBalanced(text: string)
    requires IsString(text)
    ensures Balanced(text)
  {
    var body := text[1..|text| - 1];
    forall d
      ensures Keeps(d, text)
    {
      StringBodyStaysInside(d, body);
      StringKeeps(d, text);
    }
  }

  lemma StringKeeps(d: int, text: string)
    requires |text| >= 2 && text[0] == '"' == text[|text| - 1] && StaysInside(d, text[1..|text| - 1])
    ensures Keeps(d, text)
  {
    var s, body, n := Outside(d), text[1..|text| - 1], |text|;
    assert text[..0] == "" && text[..n] == text;
    ScanNext(s, text, 0);
    forall k | 1 <= k < n
      ensures Scan(s, text[..k]) == Scan(State(d, true, false), body[..k - 1])
    {
      assert text[..k] == text[..1] + body[..k - 1];
      ScanAppend(s, text[..1], body[..k - 1]);
    }
    assert body[..n - 2] == body;
    ScanNext(s, text, n - 1);
  }

  /** Braces around a balanced text: deeper than outside until the very last character. */
  lemma BracesKeep(d: int, text: string)
    requires |text| >= 2 && text[0] == '{' && text[|text| - 1] == '}' && Balanced(text[1..|text| - 1])
    ensures Keeps(d, text)
    ensures forall k | 0 < k < |text| :: Scan(Outside(d), text[..k]).depth > d
    ensures Scan(Outside(d), text[..|text| - 1]) == Outside(d + 1)
  {
    var s, body, n := Outside(d), text[1..|text| - 1], |text|;
    assert Keeps(d + 1, body);
    assert text[..0] == "" && text[..n] == text;
    ScanNext(s, text, 0);
    forall k | 1 <= k < n
      ensures Scan(s, text[..k]) == Scan(Outside(d + 1), body[..k - 1])
    {
      assert text[..k] == text[..1] + body[..k - 1];
      ScanAppend(s, text[..1], body[..k - 1]);
    }
    assert body[..n - 2] == body;
    ScanNext(s, text, n - 1);
  }

  lemma WhitespaceIsBalanced(text: string)
    requires AllWhitespace(text)
    ensures Balanced(text)
  {
    PlainIsBalanced(text);
  }

  lemma NumberIsPlain(text: string)
    requires IsNumber(text)
    ensures forall i | 0 <= i < |text| :: Plain(text[i])
  {
    if IsUnsigned(text) {
      UnsignedIsPlain(text);
    } else {
      UnsignedIsPlain(text[1..]);
      forall i | 0 <= i < |text| ensures Plain(text[i]) {
        assert i > 0 ==> text[i] == text[1..][i - 1];
      }
    }
  }

  lemma UnsignedIsPlain(text: string)
    requires IsUnsigned(text)
    ensures forall i | 0 <= i < |text| :: Plain(text[i])
  {
    var i, j :| 0 < i <= j <= |text| && IsInt(text[..i]) && IsFraction(text[i..j]) && IsExponent(text[j..]);
    DigitsArePlain(text[..i], 0);
    if text[i..j] != "" {
      DigitsArePlain(text[i..j], 1);
    }
    if text[j..] != "" {
      DigitsArePlain(text[j..], if IsDigits(text[j..][1..]) then 1 else 2);
    }
    forall k | 0 <= k < |text| ensures Plain(text[k]) {
      if k < i {
        assert text[k] == text[..i][k];
      } else if k < j {
        assert text[k] == text[i..j][k - i];
      } else {
        assert text[k] == text[j..][k - j];
      }
    }
  }

  lemma DigitsArePlain(text: string, n: nat)
    requires n < |text| && IsDigits(text[n..]) && forall i | 0 <= i < n :: text[i] in ".eE+-"
    ensures forall i | 0 <= i < |text| :: Plain(text[i])
  {
    forall i | 0 <= i < |text| ensures Plain(text[i]) {
      if i >= n {
        assert text[i] == text[n..][i - n];
      }
    }
  }

  // One lemma per nonterminal, along the recursion of the grammar.

  lemma {:induction false} ValueIsBalanced(text: string)
    requires IsValue(text)
    ensures Balanced(text)
    decreases |text|, 2
  {
    if IsString(text) {
      StringIsBalanced(text);
    } else if IsNumber(text) {
      NumberIsPlain(text);
      PlainIsBalanced(text);
    } else if IsObject(text) {
      ObjectIsBalanced(text);
    } else if IsArray(text) {
      ArrayIsBalanced(text);
    } else {
      PlainIsBalanced(text);
    }
  }

  lemma {:induction false} ObjectBodyIsBalanced(text: string)
    requires IsObject(text)
    ensures Balanced(text[1..|text| - 1])
    decreases |text|, 0
  {
    var body := text[1..|text| - 1];
    if AllWhitespace(body) {
      WhitespaceIsBalanced(body);
    } else {
      MembersAreBalanced(body);
    }
  }

  lemma {:induction false} ObjectIsBalanced(text: string)
    requires IsObject(text)
    ensures Balanced(text)
    decreases |text|, 1
  {
    ObjectBodyIsBalanced(text);
    forall d ensures Keeps(d, text) {
      BracesKeep(d, text);
    }
  }

  lemma {:induction false} MembersAreBalanced(text: string)
    requires IsMembers(text)
    ensures Balanced(text)
    decreases |text|, 4
  {
    if IsMember(text) {
      MemberIsBalanced(text);
    } else {
      var i :| 0 <= i < |text| && text[i] == ',' && IsMember(text[..i]) && IsMembers(text[i + 1..]);
      MemberIsBalanced(text[..i]);
      MembersAreBalanced(text[i + 1..]);
      Separated(text, i);
    }
  }

  lemma {:induction false} MemberIsBalanced(text: string)
    requires IsMember(text)
    ensures Balanced(text)
    decreases |text|, 3
  {
    var i :| 0 <= i < |text| && text[i] == ':' && IsName(text[..i]) && IsElement(text[i + 1..]);
    NameIsBalanced(text[..i]);
    ElementIsBalanced(text[i + 1..]);
    Separated(text, i);
  }

  lemma NameIsBalanced(text: string)
    requires IsName(text)
    ensures Balanced(text)
  {
    var i, j :| 0 <= i <= j <= |text| && AllWhitespace(text[..i]) && IsString(text[i..j]) && AllWhitespace(text[j..]);
    StringIsBalanced(text[i..j]);
    Padded(text, i, j);
  }

  lemma {:induction false} ArrayIsBalanced(text: string)
    requires IsArray(text)
    ensures Balanced(text)
    decreases |text|, 0
  {
    var body, n := text[1..|text| - 1], |text|;
    if AllWhitespace(body) {
      WhitespaceIsBalanced(body);
    } else {
      ElementsAreBalanced(body);
    }
    PlainIsBalanced(text[..1]);
    PlainIsBalanced(text[n - 1..]);
    BalancedAppend(text[..1], body);
    BalancedAppend(text[..1] + body, text[n - 1..]);
    assert text == text[..1] + body + text[n - 1..];
  }

  lemma {:induction false} ElementsAreBalanced(text: string)
    requires IsElements(text)
    ensures Balanced(text)
    decreases |text|, 4
  {
    if IsElement(text) {
      ElementIsBalanced(text);
    } else {
      var i :| 0 <= i < |text| && text[i] == ',' && IsElement(text[..i]) && IsElements(text[i + 1..]);
      ElementIsBalanced(text[..i]);
      ElementsAreBalanced(text[i + 1..]);
      Separated(text, i);
    }
  }

  lemma {:induction false} ElementIsBalanced(text: string)
    requires IsElement(text)
    ensures Balanced(text)
    decreases |text|, 3
  {
    var i, j :| 0 <= i <= j <= |text| && AllWhitespace(text[..i]) && IsValue(text[i..j]) && AllWhitespace(text[j..]);
    ValueIsBalanced(text[i..j]);
    Padded(text, i, j);
  }

  lemma Separated(text: string, i: nat)
    requires i < |text| && Plain(text[i]) && Balanced(text[..i]) && Balanced(text[i + 1..])
    ensures Balanced(text)
  {
    PlainIsBalanced([text[i]]);
    BalancedAppend(text[..i], [text[i]]);
    BalancedAppend(text[..i] + [text[i]], text[i + 1..]);
    assert text == text[..i] + [text[i]] + text[i + 1..];
  }

  lemma Padded(text: string, i: nat, j: nat)
    requires i <= j <= |text| && AllWhitespace(text[..i]) && Balanced(text[i..j]) && AllWhitespace(text[j..])
    ensures Balanced(text)
  {
    WhitespaceIsBalanced(text[..i]);
    WhitespaceIsBalanced(text[j..]);
    BalancedAppend(text[..i], text[i..j]);
    BalancedAppend(text[..i] + text[i..j], text[j..]);
    assert text == text[..i] + text[i..j] + text[j..];
  }

  /** Scanned from its opening brace, an object first returns to depth 0 exactly at
      its last character. */
  lemma ObjectClosesAtItsEnd(text: string)
    requires IsObject(text)
    ensures Scan(Outside(0), text) == Outside(0)
    ensures forall k | 0 < k < |text| :: Scan(Outside(0), text[..k]).depth > 0
  {
    ObjectBodyIsBalanced(text);
    BracesKeep(0, text);
    assert text[..|text|] == text;
  }

  // ----- firstJSONObject -----------------------------------------------------------------------

  /** `text[i..j]` is an object, nested no deeper than the limit. */
  predicate ObjectAt(text: string, i: int, j: int) {
    0 <= i <= j <= |text| && IsValidObject(text[i..j])
  }

  method IndexOfBrace(text: string, offset: nat) returns (start: int)
    requires offset <= |text|
    ensures start == -1 ==> forall i | offset <= i < |text| :: text[i] != '{'
    ensures start != -1 ==>
              offset <= start < |text| && text[start] == '{' && forall i | offset <= i < start :: text[i] != '{'
  {
    start := offset;
    while start < |text|
      invariant offset <= start <= |text|
      invariant forall i | offset <= i < start :: text[i] != '{'
    {
      if text[start] == '{' {
        return;
      }
      start := start + 1;
    }
    start := -1;
  }

  /** Scans from the brace at `start`; `end` is where the depth first comes back to
      0, or the length of the text if it never does. */
  method ScanCandidate(text: string, start: nat) returns (end: nat)
    requires start < |text| && text[start] == '{'
    ensures start < end <= |text| + 1
    ensures forall k | start < k < end && k <= |text| :: Scan(Outside(0), text[start..k]).depth > 0
    ensures end <= |text| ==> text[end - 1] == '}' && end >= start + 2 && Scan(Outside(0), text[start..end]).depth == 0
  {
    var depth, inString, escaped := 0, false, false;
    var index := start;
    assert text[start..start] == "";
    while index < |text|
      invariant start <= index <= |text|
      invariant State(depth, inString, escaped) == Scan(Outside(0), text[start..index])
      invariant !inString ==> !escaped
      invariant forall k | start < k <= index :: Scan(Outside(0), text[start..k]).depth > 0
    {
      var character := text[index];
      assert text[start..index + 1][..index - start] == text[start..index];
      index := index + 1;
      if inString {
        if escaped {
          escaped := false;
          continue;
        }
        if character == '\\' {
          escaped := true;
          continue;
        }
        if character == '"' {
          inString := false;
        }
        continue;
      }
      match character
      case '"' =>
        inString := true;
      case '{' =>
        depth := depth + 1;
      case '}' =>
        depth := depth - 1;
        if depth == 0 {
          return index;
        }
      case _ =>
    }
    end := |text| + 1;
  }

  /** If any object starts at `start`, it ends where the scan from there closes. */
  lemma ObjectEndsAtClose(text: string, start: nat, end: nat, j: nat)
    requires start < |text| && ObjectAt(text, start, j)
    requires start < end <= |text| + 1
    requires forall k | start < k < end && k <= |text| :: Scan(Outside(0), text[start..k]).depth > 0
    requires end <= |text| ==> Scan(Outside(0), text[start..end]).depth == 0
    ensures j == end
  {
    var candidate := text[start..j];
    ObjectClosesAtItsEnd(candidate);
    if start < end < j {
      SliceOfSlice(text, start, j, start, end);
    }
  }

  /** `r` is the object of the text that starts leftmost; no other starts there. */
  ghost predicate LeftmostObject(text: string, r: string) {
    exists i, j ::
      && ObjectAt(text, i, j) && r == text[i..j]
      && forall h, k | ObjectAt(text, h, k) :: i <= h && (h == i ==> k == j)
  }

  /** The first JSON object in `value`: the object that starts at the leftmost
      position where any object starts, and nothing only if there is no object
      anywhere. */
  method FirstJSONObject(value: string) returns (r: Option<string>)
    ensures r == None <==> forall i, j :: !ObjectAt(value, i, j)
    ensures r.Some? ==> LeftmostObject(value, r.value)
  {
    hide IsObject, IsElement, NestingOf, Scan, IsSpace, TrimSpace;
    var text := TrimSpace(value);
    ghost var lo, hi := TrimSpaceIsSlice(value);
    ObjectsSurviveTrim(value, text, lo, hi);
    var offset := 0;
    while offset < |text|
      invariant 0 <= offset <= |text|
      invariant forall i, j | 0 <= i < offset :: !ObjectAt(text, i, j)
    {
      var start := IndexOfBrace(text, offset);
      NoObjectBefore(text, offset, if start == -1 then |text| else start);
      if start == -1 {
        return None;
      }
      var end := ScanCandidate(text, start);
      forall j | ObjectAt(text, start, j) ensures j == end {
        ObjectEndsAtClose(text, start, end, j);
      }
      if end <= |text| {
        var candidate := text[start..end];
        BracedJsonIsObject(candidate);
        if IsValid(candidate) {
          assert ObjectAt(text, start, end);
          assert ObjectAt(value, lo + start, lo + end);
          SliceOfSlice(value, lo, hi, lo + start, lo + end);
          return Some(candidate);
        }
      }
      offset := start + 1;
    }
    return None;
  }

  predicate HoldsObject(text: string) {
    exists i, j | 0 <= i <= j <= |text| :: ObjectAt(text, i, j)
  }

  /** `text` is the answer without its code fences.  What is handed on is the text if it
      is valid JSON or holds no object, and else its leftmost object. */
  method ExtractModelJSONText(text: string) returns (r: string)
    ensures IsValid(r) <==> IsValid(text) || HoldsObject(text)
    ensures IsValid(text) || !HoldsObject(text) ==> r == text
    ensures !IsValid(text) && HoldsObject(text) ==> LeftmostObject(text, r)
  {
    hide IsObject, IsJson, NestingOf;
    if IsValid(text) {
      return text;
    }
    var extracted := FirstJSONObject(text);
    if extracted.None? {
      return text;
    }
    ghost var i, j :| ObjectAt(text, i, j) && extracted.value == text[i..j];
    ObjectIsBraced(text, i, j);
    BracedJsonIsObject(extracted.value);
    return extracted.value;
  }

  lemma NoObjectBefore(text: string, from: nat, to: nat)
    requires from <= to <= |text| && forall i | from <= i < to :: text[i] != '{'
    ensures forall i, j | from <= i < to :: !ObjectAt(text, i, j)
  {
    forall i, j | from <= i < to
      ensures !ObjectAt(text, i, j)
    {
      if ObjectAt(text, i, j) {
        ObjectIsBraced(text, i, j);
      }
    }
  }

  lemma ObjectIsBraced(text: string, i: int, j: int)
    requires ObjectAt(text, i, j)
    ensures i + 2 <= j && text[i] == '{' && text[j - 1] == '}'
  {
    assert text[i..j][0] == text[i] && text[i..j][j - i - 1] == text[j - 1];
  }

  lemma SliceOfSlice(text: string, lo: int, hi: int, i: int, j: int)
    requires 0 <= lo <= i <= j <= hi <= |text|
    ensures text[lo..hi][i - lo..j - lo] == text[i..j]
  {
    var a, b := text[lo..hi][i - lo..j - lo], text[i..j];
    assert |a| == |b|;
    forall k | 0 <= k < |a|
      ensures a[k] == b[k]
    {
      assert a[k] == text[lo..hi][i - lo + k];
    }
  }

  /** Braces are no white space, so trimming neither loses nor creates objects. */
  lemma ObjectsSurviveTrim(value: string, text: string, lo: nat, hi: nat)
    requires lo <= hi <= |value| && text == value[lo..hi]
    requires forall i | 0 <= i < lo || hi <= i < |value| :: IsSpace(value[i])
    ensures forall i, j :: ObjectAt(value, i, j) <==> lo <= i && ObjectAt(text, i - lo, j - lo)
    ensures forall i, j :: ObjectAt(text, i, j) ==> i < |text|
  {
    forall i, j | ObjectAt(text, i, j) ensures i < |text| {
      ObjectIsBraced(text, i, j);
    }
    forall i, j ensures ObjectAt(value, i, j) <==> lo <= i && ObjectAt(text, i - lo, j - lo) {
      if ObjectAt(value, i, j) {
        ObjectIsBraced(value, i, j);
        SliceOfSlice(value, lo, hi, i, j);
      }
      if lo <= i && ObjectAt(text, i - lo, j - lo) {
        SliceOfSlice(value, lo, hi, i, j);
      }
    }
  }
}
