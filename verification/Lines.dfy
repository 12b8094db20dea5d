/** Reading a text file line by line, as fgets and sscanf do. */
module Lines {
  import opened Text

  const LINE_BUFFER := 256

  /** Length of the prefix before the first c. */
  function UpTo(s: string, c: char): (n: nat)
    ensures n <= |s| && (n < |s| ==> s[n] == c)
    ensures forall k :: 0 <= k < n ==> s[k] != c
  {
    if s == "" || s[0] == c then 0 else 1 + UpTo(s[1..], c)
  }

  /** What fgets returns: up to and including the newline, at most 255 characters. */
  function LineLength(text: string): (n: nat)
    requires text != ""
    ensures 0 < n <= |text| && n <= UpTo(text, '\n') + 1
  {
    var n := UpTo(text, '\n');
    var whole := if n < |text| then n + 1 else n;
    if whole > LINE_BUFFER - 1 then LINE_BUFFER - 1 else whole
  }

  predicate IsSpace(c: char) {
    IsBlank(c) || c == '\U{000B}' || c == '\U{000C}'
  }

  function SpaceLength(s: string): (n: nat)
    ensures n <= |s| && forall k :: 0 <= k < n ==> IsSpace(s[k])
    ensures n < |s| ==> !IsSpace(s[n])
  {
    if s == "" || !IsSpace(s[0]) then 0 else 1 + SpaceLength(s[1..])
  }

  lemma {:induction false} UpToIs(s: string, c: char, n: nat)
    requires n <= |s| && (n < |s| ==> s[n] == c) && forall k :: 0 <= k < n ==> s[k] != c
    ensures UpTo(s, c) == n
  {
  }

  /** A line without newlines inside that fits the buffer is read whole. */
  lemma {:induction false} FirstLine(line: string, rest: string)
    requires |line| < LINE_BUFFER - 1 && '\n' !in line
    ensures var text := line + "\n" + rest;
            LineLength(text) == |line| + 1 && text[..|line| + 1] == line + "\n" && text[|line| + 1..] == rest
  {
    var text := line + "\n" + rest;
    assert forall k :: 0 <= k < |line| ==> text[k] == line[k] && line[k] != '\n';
    UpToIs(text, '\n', |line|);
  }

  /** A field that ends at the first bar or colon. */
  lemma {:induction false} FirstField(field: string, c: char, rest: string)
    requires c !in field
    ensures var s := field + [c] + rest;
            UpTo(s, c) == |field| && s[..|field|] == field && s[|field| + 1..] == rest
  {
    var s := field + [c] + rest;
    assert forall k :: 0 <= k < |field| ==> s[k] == field[k];
    UpToIs(s, c, |field|);
  }
}
