/**
 * utils/UriSanitizer.java: turns a title (or a comment's content) followed by
 * "-" and an id into a URI slug. Lower-cases the input, keeps letters, digits,
 * '-', '.', '_', '~' and spaces, drops every other character, except that a
 * dropped character standing between two spaces also takes back the space
 * just kept before it; finally every space becomes '-'.
 * Letters and digits are the ASCII ones.
 */
module UriSanitizer {
  import opened JavaText

  predicate IsLetterOrDigit(c: char) {
    'a' <= c <= 'z' || 'A' <= c <= 'Z' || IsDigit(c)
  }

  predicate IsAllowedChar(c: char) {
    IsLetterOrDigit(c) || c == '-' || c == '.' || c == '_' || c == '~' || c == ' '
  }

  /** The characters a slug is made of. */
  predicate IsSlugChar(c: char) {
    'a' <= c <= 'z' || IsDigit(c) || c == '-' || c == '.' || c == '_' || c == '~'
  }

  /** Whether the character at position `i` is a dropped one between two spaces. */
  predicate CollapsesAt(t: string, i: nat)
    requires i < |t|
  {
    !IsAllowedChar(t[i]) && i > 0 && i < |t| - 1 && t[i - 1] == ' ' && t[i + 1] == ' '
  }

  /** The StringBuilder after the loop has looked at the first `n` characters of `t`. */
  function Built(t: string, n: nat): (sb: string)
    requires n <= |t|
    ensures n > 0 && t[n - 1] == ' ' ==> |sb| > 0 && sb[|sb| - 1] == ' '
  {
    if n == 0 then []
    else
      var sb := Built(t, n - 1);
      if IsAllowedChar(t[n - 1]) then sb + [t[n - 1]]
      else if CollapsesAt(t, n - 1) then sb[..|sb| - 1]
      else sb
  }

  /** `replaceAll(" ", "-")`. */
  function ReplaceSpaces(s: string): (r: string)
    ensures |r| == |s|
    ensures forall i :: 0 <= i < |s| ==> r[i] == if s[i] == ' ' then '-' else s[i]
  {
    seq(|s|, i requires 0 <= i < |s| => if s[i] == ' ' then '-' else s[i])
  }

  /** What `encode` returns. */
  function Encoded(input: string): string {
    var t := ToLower(input);
    ReplaceSpaces(Built(t, |t|))
  }

  /** UriSanitizer.encode: the loop over the lower-cased input, appending to and
      deleting from a builder, then the space replacement. */
  method Encode(input: string) returns (out: string)
    ensures out == Encoded(input)
  {
    var t := ToLower(input);
    var sb: string := [];
    for i := 0 to |t|
      invariant sb == Built(t, i)
    {
      var c := t[i];
      if IsAllowedChar(c) {
        sb := sb + [c];
      } else if i > 0 && i < |t| - 1 && t[i - 1] == ' ' && t[i + 1] == ' ' {
        sb := sb[..|sb| - 1];
      }
    }
    out := ReplaceSpaces(sb);
  }

  /** The builder never grows faster than the input: one character per step at most. */
  lemma {:induction false} BuiltLength(t: string, n: nat)
    requires n <= |t|
    ensures |Built(t, n)| <= n
  {
    if n > 0 { BuiltLength(t, n - 1); }
  }

  /** Everything in the builder is an allowed character that is not upper case,
      provided the (lower-cased) input has no upper case. */
  lemma {:induction false} BuiltChars(t: string, n: nat)
    requires n <= |t|
    requires forall i :: 0 <= i < |t| ==> !IsUpper(t[i])
    ensures forall i :: 0 <= i < |Built(t, n)| ==> IsAllowedChar(Built(t, n)[i]) && !IsUpper(Built(t, n)[i])
  {
    if n > 0 { BuiltChars(t, n - 1); }
  }

  /** The only deletion removes exactly the space kept one step earlier:
      across the space and the dropped character the builder is unchanged. */
  lemma CollapseUndoesSpace(t: string, n: nat)
    requires 0 < n < |t| && CollapsesAt(t, n)
    ensures Built(t, n) == Built(t, n - 1) + [' ']
    ensures Built(t, n + 1) == Built(t, n - 1)
  {
  }

  /** The output contains no space: every kept space became '-'. */
  lemma EncodedHasNoSpace(input: string)
    ensures ' ' !in Encoded(input)
  {
    var r := Encoded(input);
    assert forall i :: 0 <= i < |r| ==> r[i] != ' ';
  }

  /** Every output character is a lower-case letter, a digit, or one of `- . _ ~`,
      and the output is no longer than the input. */
  lemma EncodedIsSlug(input: string)
    ensures forall i :: 0 <= i < |Encoded(input)| ==> IsSlugChar(Encoded(input)[i])
    ensures |Encoded(input)| <= |input|
  {
    var t := ToLower(input);
    BuiltChars(t, |t|);
    BuiltLength(t, |t|);
  }

  /** A slug encodes to itself: the builder keeps every character. */
  lemma {:induction false} BuiltOfSlug(u: string, n: nat)
    requires n <= |u|
    requires forall i :: 0 <= i < |u| ==> IsSlugChar(u[i])
    ensures Built(u, n) == u[..n]
  {
    if n > 0 {
      BuiltOfSlug(u, n - 1);
      assert u[..n] == u[..n - 1] + [u[n - 1]];
    }
  }

  lemma EncodedOfSlug(u: string)
    requires forall i :: 0 <= i < |u| ==> IsSlugChar(u[i])
    ensures Encoded(u) == u
  {
    assert ToLower(u) == u;
    BuiltOfSlug(u, |u|);
    assert u[..|u|] == u;
  }

  /** `encode` is idempotent. */
  lemma EncodeIdempotent(input: string)
    ensures Encoded(Encoded(input)) == Encoded(input)
  {
    EncodedIsSlug(input);
    EncodedOfSlug(Encoded(input));
  }

  /** Before the end of `x` the builder is blind to what follows `x`, as long
      as what follows does not begin with a space. */
  lemma {:induction false} BuiltIgnoresSuffix(x: string, y: string, n: nat)
    requires n <= |x|
    requires |y| > 0 && y[0] != ' '
    ensures Built(x + y, n) == Built(x, n)
  {
    if n > 0 {
      BuiltIgnoresSuffix(x, y, n - 1);
      var t := x + y;
      assert t[n - 1] == x[n - 1];
      if n - 1 > 0 { assert t[n - 2] == x[n - 2]; }
      if n < |x| { assert t[n] == x[n]; } else { assert t[n] == y[0]; }
    }
  }

  /** After the end of `x`, slug characters are appended one by one. */
  lemma {:induction false} BuiltAppendsSlug(x: string, y: string, j: nat)
    requires j <= |y|
    requires |y| > 0 && y[0] != ' '
    requires forall i :: 0 <= i < |y| ==> IsSlugChar(y[i])
    ensures Built(x + y, |x| + j) == Built(x, |x|) + y[..j]
  {
    if j == 0 {
      BuiltIgnoresSuffix(x, y, |x|);
    } else {
      BuiltAppendsSlug(x, y, j - 1);
      assert (x + y)[|x| + j - 1] == y[j - 1];
      assert y[..j] == y[..j - 1] + [y[j - 1]];
    }
  }

  /** A suffix made of slug characters that does not begin with a space
      (such as "-" followed by the digits of an id) survives encoding unchanged. */
  lemma EncodeKeepsSlugSuffix(x: string, y: string)
    requires |y| > 0 && y[0] != ' '
    requires forall i :: 0 <= i < |y| ==> IsSlugChar(y[i])
    ensures Encoded(x + y) == Encoded(x) + y
  {
    var tx := ToLower(x);
    assert ToLower(x + y) == tx + y;
    BuiltAppendsSlug(tx, y, |y|);
    assert y[..|y|] == y;
    var b := Built(tx, |tx|);
    assert ReplaceSpaces(b + y) == ReplaceSpaces(b) + y;
  }

  /** One step of the loop on an allowed character appends it. */
  lemma BuiltAppends(t: string, n: nat)
    requires n < |t| && IsAllowedChar(t[n])
    ensures Built(t, n + 1) == Built(t, n) + [t[n]]
  {
  }

  /** One step of the loop on a dropped character that does not collapse two spaces changes nothing. */
  lemma BuiltDrops(t: string, n: nat)
    requires n < |t| && !IsAllowedChar(t[n]) && !CollapsesAt(t, n)
    ensures Built(t, n + 1) == Built(t, n)
  {
  }

  /** A run of allowed characters is appended as it stands. */
  lemma {:induction false} BuiltAppendsRun(t: string, m: nat, n: nat)
    requires m <= n <= |t|
    requires forall i :: m <= i < n ==> IsAllowedChar(t[i])
    ensures Built(t, n) == Built(t, m) + t[m..n]
    decreases n
  {
    if n > m {
      BuiltAppendsRun(t, m, n - 1);
      assert t[m..n] == t[m..n - 1] + [t[n - 1]];
    }
  }

  /** A dropped character between two spaces collapses them into one separator. */
  lemma CollapseExample()
    ensures Encoded("a & b") == "a-b"
  {
    var t := ToLower("a & b");
    assert t == "a & b";
    assert Built(t, 5) == "a b";
  }
}
