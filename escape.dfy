/**
 * `escapeRegExp` (content.js:499-501): the term is put into a `RegExp` only after every
 * character with a meaning in a pattern has been escaped, so the pattern denotes the term
 * literally. `LiteralOf` reads such a pattern back; the round trip is `EscapeThenRead`.
 */
module RegExpEscape {
  import opened Wrappers

  /** The class `[.*+?^${}()|[\]\\]` of the replace call. */
  predicate IsSpecial(c: char) {
    c == '.' || c == '*' || c == '+' || c == '?' || c == '^' || c == '$' || c == '{' || c == '}'
    || c == '(' || c == ')' || c == '|' || c == '[' || c == ']' || c == '\\'
  }

  /** `string.replace(/[.*+?^${}()|[\]\\]/g, '\\$&')`. */
  function EscapeRegExp(s: string): (r: string)
    ensures |s| <= |r| <= 2 * |s|
  {
    if s == [] then []
    else (if IsSpecial(s[0]) then ['\\', s[0]] else [s[0]]) + EscapeRegExp(s[1..])
  }

  /**
   * The literal a pattern stands for when it consists only of ordinary characters and
   * backslash-escaped special characters; `None` for any other pattern (an unescaped
   * operator, a class escape such as `\d`, a trailing backslash).
   */
  function LiteralOf(p: string): Option<string> {
    if p == [] then Some([])
    else if p[0] == '\\' then
      if |p| >= 2 && IsSpecial(p[1]) then
        match LiteralOf(p[2..])
        case Some(rest) => Some([p[1]] + rest)
        case None => None
      else None
    else if IsSpecial(p[0]) then None
    else
      match LiteralOf(p[1..])
      case Some(rest) => Some([p[0]] + rest)
      case None => None
  }

  /** The escaped term is a literal pattern, and the literal it denotes is the term itself. */
  lemma {:induction false} EscapeThenRead(s: string)
    ensures LiteralOf(EscapeRegExp(s)) == Some(s)
  {
    if s != [] {
      EscapeThenRead(s[1..]);
      var e := EscapeRegExp(s);
      if IsSpecial(s[0]) {
        assert e[2..] == EscapeRegExp(s[1..]);
      } else {
        assert e[1..] == EscapeRegExp(s[1..]);
      }
      assert [s[0]] + s[1..] == s;
    }
  }

  /** Escaping works character by character, so it distributes over concatenation. */
  lemma {:induction false} EscapeAppend(a: string, b: string)
    ensures EscapeRegExp(a + b) == EscapeRegExp(a) + EscapeRegExp(b)
  {
    if a != [] {
      assert (a + b)[1..] == a[1..] + b;
      EscapeAppend(a[1..], b);
    } else {
      assert a + b == b;
    }
  }

  /** The replace call leaves a term unchanged exactly when none of its characters is special. */
  lemma {:induction false} EscapeIdentity(s: string)
    ensures EscapeRegExp(s) == s <==> forall i :: 0 <= i < |s| ==> !IsSpecial(s[i])
  {
    if s != [] {
      var rest := s[1..];
      EscapeIdentity(rest);
      if !IsSpecial(s[0]) {
        assert EscapeRegExp(s) == [s[0]] + EscapeRegExp(rest);
        assert s == [s[0]] + rest;
        assert EscapeRegExp(s) == s <==> EscapeRegExp(rest) == rest by {
          if EscapeRegExp(s) == s {
            assert EscapeRegExp(s)[1..] == EscapeRegExp(rest);
          }
        }
        assert (forall i :: 0 <= i < |rest| ==> !IsSpecial(rest[i]))
               <==> (forall i :: 0 <= i < |s| ==> !IsSpecial(s[i])) by {
          if forall i :: 0 <= i < |rest| ==> !IsSpecial(rest[i]) {
            forall i | 0 <= i < |s| ensures !IsSpecial(s[i]) {
              if i > 0 { assert s[i] == rest[i - 1]; }
            }
          }
          if forall i :: 0 <= i < |s| ==> !IsSpecial(s[i]) {
            forall i | 0 <= i < |rest| ensures !IsSpecial(rest[i]) {
              assert rest[i] == s[i + 1];
            }
          }
        }
      } else {
        assert |EscapeRegExp(s)| == 2 + |EscapeRegExp(rest)|;
      }
    }
  }
}
