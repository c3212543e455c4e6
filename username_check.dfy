/**
 * The username validator of the user editor: a name is accepted when it is
 * present, matches `^[a-z_][a-z0-9_-]*\$?$` under Python's `re.match`, and is
 * at most 32 characters long.
 *
 * The pattern is stated declaratively by `MatchesPattern`; the validator runs
 * a left-to-right scanner (`Scan`) over the name, which is proved to accept
 * exactly the names `MatchesPattern` describes.
 */
module UsernameCheck {
  import opened Wrappers

  /** Longest username the validator accepts. */
  const MaxUsernameLength: nat := 32

  /** Message the validator returns for a rejected username. */
  const InvalidUsername: string := "The username you entered is invalid"

  /** `[a-z_]`: what a username may start with. */
  predicate IsLeadChar(c: char)
  {
    ('a' <= c <= 'z') || c == '_'
  }

  /** `[a-z0-9_-]`: what may follow the first character. */
  predicate IsTailChar(c: char)
  {
    IsLeadChar(c) || ('0' <= c <= '9') || c == '-'
  }

  /** Removes one final newline, if there is one. */
  function StripNewline(s: string): (t: string)
  {
    if |s| > 0 && s[|s| - 1] == '\n' then s[..|s| - 1] else s
  }

  /** Removes one final `$`, if there is one. */
  function StripDollar(s: string): (t: string)
  {
    if |s| > 0 && s[|s| - 1] == '$' then s[..|s| - 1] else s
  }

  /**
   * What remains once the optional final newline (which Python's `$` lets
   * through) and then the optional `\$?` are removed; neither `\n` nor `$`
   * is a tail character, so this split is the only one the pattern allows.
   */
  function Core(s: string): (t: string)
  {
    StripDollar(StripNewline(s))
  }

  /** All characters of `t` are tail characters. */
  predicate AllTail(t: string)
  {
    forall i :: 0 <= i < |t| ==> IsTailChar(t[i])
  }

  /**
   * `re.match(r'^[a-z_][a-z0-9_-]*\$?$', s)` succeeds: a lead character,
   * tail characters, an optional `$`, and then either the end of the string
   * or a single final newline.
   */
  predicate MatchesPattern(s: string)
  {
    var core := Core(s);
    |core| >= 1 && IsLeadChar(core[0]) && AllTail(core[1..])
  }

  /** States of the scanner that reads a username from left to right. */
  datatype ScanState =
    | Start    // nothing read yet
    | Name     // `[a-z_][a-z0-9_-]*` read
    | Dollar   // the optional `$` read
    | Newline  // the one final newline `$` tolerates read
    | Dead     // no continuation can match

  /** The states in which the input read so far matches the whole pattern. */
  predicate Accepting(q: ScanState)
  {
    q == Name || q == Dollar || q == Newline
  }

  /** One scanner transition. */
  function Step(q: ScanState, c: char): ScanState
  {
    match q
    case Start => if IsLeadChar(c) then Name else Dead
    case Name =>
      if IsTailChar(c) then Name
      else if c == '$' then Dollar
      else if c == '\n' then Newline
      else Dead
    case Dollar => if c == '\n' then Newline else Dead
    case Newline => Dead
    case Dead => Dead
  }

  /** The state reached from `q` after reading all of `s`. */
  function Scan(q: ScanState, s: string): ScanState
    decreases |s|
  {
    if s == [] then q else Scan(Step(q, s[0]), s[1..])
  }

  /**
   * `_check_for_correct_username`: no message (None) exactly when the name is
   * present, matches the pattern and has at most 32 characters; otherwise
   * the invalid-username message.
   */
  function CheckUsername(username: Option<string>): (r: Option<string>)
    ensures r == None <==>
              username.Some? && MatchesPattern(username.value) && |username.value| <= MaxUsernameLength
    ensures r != None ==> r == Some(InvalidUsername)
  {
    if username.Some? then
      ScanDecidesPattern(username.value);
      if Accepting(Scan(Start, username.value)) && |username.value| <= MaxUsernameLength
      then None
      else Some(InvalidUsername)
    else Some(InvalidUsername)
  }

  /** Once dead, the scanner stays dead. */
  lemma {:induction false} ScanDead(s: string)
    ensures Scan(Dead, s) == Dead
  {
    if s != [] {
      ScanDead(s[1..]);
    }
  }

  /** After the final newline nothing more may follow. */
  lemma ScanNewline(s: string)
    ensures Accepting(Scan(Newline, s)) <==> s == []
  {
    if s != [] {
      ScanDead(s[1..]);
    }
  }

  /** After the `$` only one final newline may follow. */
  lemma ScanDollar(s: string)
    ensures Accepting(Scan(Dollar, s)) <==> s == [] || s == ['\n']
  {
    if s != [] {
      if s[0] == '\n' {
        ScanNewline(s[1..]);
        assert s == ['\n'] <==> s[1..] == [];
      } else {
        ScanDead(s[1..]);
      }
    }
  }

  /** `Core` keeps a prefix of its input and drops at most two characters. */
  lemma CorePrefix(s: string)
    ensures |Core(s)| <= |s| && Core(s) == s[..|Core(s)|]
    ensures |Core(s)| + 2 >= |s|
  {
  }

  /** A first character that is neither `$` nor a newline survives `Core`. */
  lemma CoreCons(c: char, s: string)
    requires c != '$' && c != '\n'
    ensures Core([c] + s) == [c] + Core(s)
  {
  }

  /** From `Name`, the scanner accepts exactly the inputs whose `Core` is all tail characters. */
  lemma {:induction false} ScanName(s: string)
    ensures Accepting(Scan(Name, s)) <==> AllTail(Core(s))
  {
    if s != [] {
      var c, rest := s[0], s[1..];
      assert s == [c] + rest;
      if IsTailChar(c) {
        ScanName(rest);
        CoreCons(c, rest);
        assert Core(s)[1..] == Core(rest);
      } else if c == '$' {
        ScanDollar(rest);
        if rest != [] && rest != ['\n'] {
          CorePrefix(s);
          assert |Core(s)| >= 1 && Core(s)[0] == '$';
        }
      } else if c == '\n' {
        ScanNewline(rest);
        if rest != [] {
          CorePrefix(s);
          assert |Core(s)| >= 1 && Core(s)[0] == '\n';
        }
      } else {
        ScanDead(rest);
        CoreCons(c, rest);
        assert Core(s)[0] == c;
      }
    }
  }

  /** The scanner accepts a username exactly when it matches the pattern. */
  lemma ScanDecidesPattern(s: string)
    ensures Accepting(Scan(Start, s)) <==> MatchesPattern(s)
  {
    if s != [] {
      var c, rest := s[0], s[1..];
      assert s == [c] + rest;
      if IsLeadChar(c) {
        ScanName(rest);
        CoreCons(c, rest);
        assert Core(s)[1..] == Core(rest);
      } else {
        ScanDead(rest);
        CorePrefix(s);
      }
    }
  }

  /**
   * Python's `$` matches before one final newline, so a name that ends in a
   * newline is accepted, and that newline counts towards the 32 characters.
   */
  lemma TrailingNewlineAccepted()
    ensures CheckUsername(Some("abc\n")) == None
    ensures CheckUsername(Some("abc$\n")) == None
    ensures CheckUsername(Some("abc\n\n")) == Some(InvalidUsername)
  {
  }

  /** Names the pattern rejects: empty, a leading digit, upper case, an inner `$`. */
  lemma RejectedNames()
    ensures CheckUsername(None) == Some(InvalidUsername)
    ensures CheckUsername(Some("")) == Some(InvalidUsername)
    ensures CheckUsername(Some("1abc")) == Some(InvalidUsername)
    ensures CheckUsername(Some("Alice")) == Some(InvalidUsername)
    ensures CheckUsername(Some("a$b")) == Some(InvalidUsername)
  {
  }
}
