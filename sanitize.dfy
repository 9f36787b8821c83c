/**
 * The public-file-name sanitiser of app.py: lower-case and strip the title,
 * replace every run of characters outside [a-z0-9_.-] by one underscore,
 * keep at most 100 characters and drop trailing underscores and dots.
 */
module Sanitize {

  /** Longest name the sanitiser keeps. */
  const MaxLength: nat := 100

  /** A character the regular expression [a-z0-9_\-.] accepts. */
  predicate Allowed(c: char) {
    ('a' <= c <= 'z') || ('0' <= c <= '9') || c == '_' || c == '-' || c == '.'
  }

  /** A character the final right-strip removes. */
  predicate TrailingJunk(c: char) {
    c == '_' || c == '.'
  }

  /** The names the sanitiser can produce. */
  predicate IsSafeName(s: string) {
    |s| <= MaxLength
    && (forall i :: 0 <= i < |s| ==> Allowed(s[i]))
    && (s == [] || !TrailingJunk(s[|s| - 1]))
  }

  /** Python's str.isspace, on code points. */
  predicate IsSpace(c: char) {
    var n := c as int;
    n == 0x20 || (0x09 <= n <= 0x0D) || (0x1C <= n <= 0x1F) || n == 0x85 || n == 0xA0
    || n == 0x1680 || (0x2000 <= n <= 0x200A) || n == 0x2028 || n == 0x2029
    || n == 0x202F || n == 0x205F || n == 0x3000
  }

  /** Lower-casing of one character, on the ASCII letters. */
  function LowerChar(c: char): char {
    if 'A' <= c <= 'Z' then (c as int + 32) as char else c
  }

  function Lower(s: string): string {
    seq(|s|, i requires 0 <= i < |s| => LowerChar(s[i]))
  }

  function StripLeft(s: string): string {
    if s != [] && IsSpace(s[0]) then StripLeft(s[1..]) else s
  }

  function StripRight(s: string): string {
    if s != [] && IsSpace(s[|s| - 1]) then StripRight(s[..|s| - 1]) else s
  }

  /** Python's str.strip() with no argument. */
  function Strip(s: string): string {
    StripRight(StripLeft(s))
  }

  /** Drops the disallowed characters at the front of s (the rest of a run). */
  function DropRun(s: string): (r: string)
    ensures |r| <= |s|
  {
    if s != [] && !Allowed(s[0]) then DropRun(s[1..]) else s
  }

  /**
   * The substitution step: every maximal run of disallowed characters
   * becomes a single underscore; allowed characters are kept.
   */
  function Collapse(s: string): (r: string)
    ensures |r| <= |s|
    ensures forall i :: 0 <= i < |r| ==> Allowed(r[i])
    decreases |s|
  {
    if s == [] then []
    else if Allowed(s[0]) then [s[0]] + Collapse(s[1..])
    else "_" + Collapse(DropRun(s[1..]))
  }

  /** s[:n] in Python: the first n characters, or all of s when it is shorter. */
  function Truncate(s: string, n: nat): (r: string)
  {
    if |s| <= n then s else s[..n]
  }

  /** str.rstrip("_."): removes trailing underscores and dots. */
  function TrimTrailing(s: string): (r: string)
    ensures |r| <= |s| && r == s[..|r|]
    ensures r == [] || !TrailingJunk(r[|r| - 1])
  {
    if s != [] && TrailingJunk(s[|s| - 1]) then TrimTrailing(s[..|s| - 1]) else s
  }

  /** sanitize_filename: the public stem of the file a job publishes. */
  function SanitizeFilename(name: string): (r: string)
    ensures |r| <= MaxLength
    ensures forall i :: 0 <= i < |r| ==> Allowed(r[i])
    ensures r == [] || !TrailingJunk(r[|r| - 1])
  {
    var collapsed := Collapse(Strip(Lower(name)));
    var cut := Truncate(collapsed, MaxLength);
    assert forall i :: 0 <= i < |cut| ==> cut[i] == collapsed[i];
    TrimTrailing(cut)
  }

  lemma {:induction false} CollapseKeepsSafe(s: string)
    requires forall i :: 0 <= i < |s| ==> Allowed(s[i])
    ensures Collapse(s) == s
  {
    if s != [] {
      CollapseKeepsSafe(s[1..]);
    }
  }

  lemma {:induction false} StripKeepsSafe(s: string)
    requires forall i :: 0 <= i < |s| ==> Allowed(s[i])
    ensures Strip(s) == s
  {
    if s != [] {
      assert !IsSpace(s[0]) && !IsSpace(s[|s| - 1]);
    }
  }

  /** A safe name is exactly a name the sanitiser leaves unchanged. */
  lemma SanitizeFixedPoints(s: string)
    ensures SanitizeFilename(s) == s <==> IsSafeName(s)
  {
    if IsSafeName(s) {
      assert Lower(s) == s;
      StripKeepsSafe(s);
      CollapseKeepsSafe(s);
    }
  }

  lemma {:induction false} StripLeftInside(s: string)
    ensures forall i :: 0 <= i < |StripLeft(s)| ==> StripLeft(s)[i] in s
  {
    if s != [] && IsSpace(s[0]) {
      StripLeftInside(s[1..]);
    }
  }

  lemma {:induction false} StripRightInside(s: string)
    ensures forall i :: 0 <= i < |StripRight(s)| ==> StripRight(s)[i] in s
  {
    if s != [] && IsSpace(s[|s| - 1]) {
      StripRightInside(s[..|s| - 1]);
    }
  }

  lemma {:induction false} CollapseDisallowed(s: string)
    requires forall i :: 0 <= i < |s| ==> !Allowed(s[i])
    ensures Collapse(s) == if s == [] then [] else "_"
  {
    if s != [] {
      assert DropRun(s[1..]) == [] by {
        DropAll(s[1..]);
      }
    }
  }

  lemma {:induction false} DropAll(s: string)
    requires forall i :: 0 <= i < |s| ==> !Allowed(s[i])
    ensures DropRun(s) == []
  {
    if s != [] {
      DropAll(s[1..]);
    }
  }

  /**
   * A title none of whose characters is allowed once lower-cased (one in
   * another script, say) sanitises to the empty stem.
   */
  lemma NoAllowedCharacterGivesEmpty(name: string)
    requires forall i :: 0 <= i < |name| ==> !Allowed(LowerChar(name[i]))
    ensures SanitizeFilename(name) == ""
  {
    var lowered := Lower(name);
    assert forall c :: c in lowered ==> !Allowed(c);
    StripLeftInside(lowered);
    StripRightInside(StripLeft(lowered));
    var stripped := Strip(lowered);
    assert forall i :: 0 <= i < |stripped| ==> !Allowed(stripped[i]);
    CollapseDisallowed(stripped);
  }

  /** For instance, a Japanese title gives the empty stem. */
  lemma JapaneseTitleGivesEmpty()
    ensures SanitizeFilename("\U{65E5}\U{672C}") == ""
  {
    NoAllowedCharacterGivesEmpty("\U{65E5}\U{672C}");
  }

  /** Sanitising an already sanitised name returns it unchanged. */
  lemma SanitizeIdempotent(name: string)
    ensures SanitizeFilename(SanitizeFilename(name)) == SanitizeFilename(name)
  {
    SanitizeFixedPoints(SanitizeFilename(name));
  }
}
