/** The grammar of JSON texts (sections 2 to 7 of RFC 8259) as predicates on
    strings, one character per code point. */
module JsonGrammar {

  predicate IsWhitespace(c: char) {
    c == ' ' || c == '\t' || c == '\n' || c == '\r'
  }

  predicate AllWhitespace(s: string) {
    forall i | 0 <= i < |s| :: IsWhitespace(s[i])
  }

  // ----- strings and numbers --------------------------------------------------------------

  predicate IsHexDigit(c: char) {
    '0' <= c <= '9' || 'a' <= c <= 'f' || 'A' <= c <= 'F'
  }

  predicate IsStringBody(s: string) {
    if s == "" then true
    else if s[0] == '\\' then
      if |s| >= 2 && s[1] in "\"\\/bfnrt" then IsStringBody(s[2..])
      else if |s| >= 6 && s[1] == 'u' && IsHexDigit(s[2]) && IsHexDigit(s[3]) && IsHexDigit(s[4]) && IsHexDigit(s[5])
      then IsStringBody(s[6..])
      else false
    else s[0] >= ' ' && s[0] != '"' && IsStringBody(s[1..])
  }

  predicate IsString(s: string) {
    |s| >= 2 && s[0] == '"' && s[|s| - 1] == '"' && IsStringBody(s[1..|s| - 1])
  }

  predicate IsDigits(s: string) {
    s != "" && forall i | 0 <= i < |s| :: '0' <= s[i] <= '9'
  }

  predicate IsInt(s: string) {
    IsDigits(s) && (s[0] == '0' ==> |s| == 1)
  }

  predicate IsFraction(s: string) {
    s == "" || (s[0] == '.' && IsDigits(s[1..]))
  }

  predicate IsExponent(s: string) {
    s == "" || ((s[0] == 'e' || s[0] == 'E') && (IsDigits(s[1..]) || (|s| >= 2 && s[1] in "+-" && IsDigits(s[2..]))))
  }

  predicate IsUnsigned(s: string) {
    exists i, j | 0 < i <= j <= |s| :: IsInt(s[..i]) && IsFraction(s[i..j]) && IsExponent(s[j..])
  }

  predicate IsNumber(s: string) {
    IsUnsigned(s) || (s != "" && s[0] == '-' && IsUnsigned(s[1..]))
  }

  // ----- values ------------------------------------------------------------------------------

  predicate IsValue(s: string)
    decreases |s|, 1
  {
    s == "null" || s == "true" || s == "false" || IsString(s) || IsNumber(s) || IsObject(s) || IsArray(s)
  }

  predicate IsObject(s: string)
    decreases |s|, 0
  {
    && |s| >= 2 && s[0] == '{' && s[|s| - 1] == '}'
    && (AllWhitespace(s[1..|s| - 1]) || IsMembers(s[1..|s| - 1]))
  }

  predicate IsMembers(s: string)
    decreases |s|, 3
  {
    IsMember(s) || exists i | 0 <= i < |s| && s[i] == ',' :: IsMember(s[..i]) && IsMembers(s[i + 1..])
  }

  predicate IsMember(s: string)
    decreases |s|, 2
  {
    exists i | 0 <= i < |s| && s[i] == ':' :: IsName(s[..i]) && IsElement(s[i + 1..])
  }

  predicate IsName(s: string) {
    exists i, j | 0 <= i <= j <= |s| :: AllWhitespace(s[..i]) && IsString(s[i..j]) && AllWhitespace(s[j..])
  }

  predicate IsArray(s: string)
    decreases |s|, 0
  {
    && |s| >= 2 && s[0] == '[' && s[|s| - 1] == ']'
    && (AllWhitespace(s[1..|s| - 1]) || IsElements(s[1..|s| - 1]))
  }

  predicate IsElements(s: string)
    decreases |s|, 3
  {
    IsElement(s) || exists i | 0 <= i < |s| && s[i] == ',' :: IsElement(s[..i]) && IsElements(s[i + 1..])
  }

  /** A value with whitespace around it. */
  predicate IsElement(s: string)
    decreases |s|, 2
  {
    exists i, j | 0 <= i <= j <= |s| :: AllWhitespace(s[..i]) && IsValue(s[i..j]) && AllWhitespace(s[j..])
  }

  predicate IsJson(s: string) {
    IsElement(s)
  }

  const MAX_NESTING := 10000

  /** Objects and arrays open, and the most that were open at once. */
  datatype Nesting = Nesting(open: int, deepest: int, inString: bool, escaped: bool)

  function NestingOf(s: string): Nesting {
    if s == "" then Nesting(0, 0, false, false)
    else
      var n, c := NestingOf(s[..|s| - 1]), s[|s| - 1];
      if n.inString then
        if n.escaped then n.(escaped := false)
        else if c == '\\' then n.(escaped := true)
        else if c == '"' then n.(inString := false)
        else n
      else if c == '"' then n.(inString := true)
      else if c == '{' || c == '[' then
        Nesting(n.open + 1, if n.open + 1 > n.deepest then n.open + 1 else n.deepest, false, false)
      else if c == '}' || c == ']' then n.(open := n.open - 1)
      else n
  }

  /** What `json.Valid` accepts: texts of the grammar, nested no deeper than its limit. */
  predicate IsValid(s: string) {
    IsJson(s) && NestingOf(s).deepest <= MAX_NESTING
  }

  /** An object that `json.Valid` accepts. */
  predicate IsValidObject(s: string) {
    IsObject(s) && NestingOf(s).deepest <= MAX_NESTING
  }

  /** A JSON text that starts with a brace and ends with one is an object, and
      every object is a JSON text. */
  lemma BracedJsonIsObject(s: string)
    requires |s| >= 2 && s[0] == '{' && s[|s| - 1] == '}'
    ensures IsJson(s) <==> IsObject(s)
  {
    hide IsValue, IsObject;
    if IsJson(s) {
      var i, j :| 0 <= i <= j <= |s| && AllWhitespace(s[..i]) && IsValue(s[i..j]) && AllWhitespace(s[j..]);
      if i > 0 {
        StartsWithPadding(s, i);
      }
      if j < |s| {
        EndsWithPadding(s, j);
      }
      assert s[i..j] == s;
      BracedValue(s);
    }
    if IsObject(s) {
      ObjectIsValue(s);
      assert s[..0] == "" && s[0..|s|] == s && s[|s|..] == "";
      assert AllWhitespace(s[..0]) && IsValue(s[0..|s|]) && AllWhitespace(s[|s|..]);
    }
  }

  lemma StartsWithPadding(s: string, i: nat)
    requires 0 < i <= |s| && AllWhitespace(s[..i])
    ensures IsWhitespace(s[0])
  {
    assert s[0] == s[..i][0];
  }

  lemma EndsWithPadding(s: string, j: nat)
    requires j < |s| && AllWhitespace(s[j..])
    ensures IsWhitespace(s[|s| - 1])
  {
    assert s[|s| - 1] == s[j..][|s| - 1 - j];
  }

  lemma BracedValue(s: string)
    requires |s| >= 2 && s[0] == '{' && IsValue(s)
    ensures IsObject(s)
  {
    hide IsMembers, IsElements, IsStringBody, IsNumber, IsUnsigned;
    if IsNumber(s) {
      NumberStart(s);
    }
  }

  lemma ObjectIsValue(s: string)
    requires IsObject(s)
    ensures IsValue(s)
  {
    hide IsMembers, IsElements, IsStringBody, IsNumber, IsUnsigned;
  }

  lemma NumberStart(s: string)
    requires IsNumber(s)
    ensures s[0] == '-' || '0' <= s[0] <= '9'
  {
    if IsUnsigned(s) {
      var i, j :| 0 < i <= j <= |s| && IsInt(s[..i]) && IsFraction(s[i..j]) && IsExponent(s[j..]);
      assert s[0] == s[..i][0];
    }
  }
}
