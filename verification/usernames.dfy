/** The two username-format validators: the character-removal variant of
    reviews/validators.py, used by the models, the admin form and the API
    serializers, and the anchored-pattern variant of api/validators.py. */
module Usernames {
  import opened Results
  import Text

  /** Python's Unicode `\w` character class. Beyond the ASCII letters,
      digits and `_` it is left open: every statement about it is made for
      any class that contains those. */
  type WordClass = char -> bool

  predicate IsAsciiWordChar(c: char) {
    'a' <= c <= 'z' || 'A' <= c <= 'Z' || '0' <= c <= '9' || c == '_'
  }

  ghost predicate CoversAscii(w: WordClass) {
    forall c :: IsAsciiWordChar(c) ==> w(c)
  }

  /** Membership in the class `[\w.@+-]`. */
  predicate Allowed(w: WordClass, c: char) {
    w(c) || c == '.' || c == '@' || c == '+' || c == '-'
  }

  predicate AllAllowed(w: WordClass, s: string) {
    forall i | 0 <= i < |s| :: Allowed(w, s[i])
  }

  datatype UsernameError =
    | ForbiddenCharacters(chars: string)
    | ReservedName
    | BadFormat

  /** `re.sub(r'[\w.@+-]', '', s)`: the characters of `s` outside the
      allowed class, in their original order. */
  function ForbiddenChars(w: WordClass, s: string): (r: string)
    ensures |r| <= |s|
    ensures forall i :: 0 <= i < |r| ==> !Allowed(w, r[i])
  {
    if s == [] then []
    else (if Allowed(w, s[0]) then [] else [s[0]]) + ForbiddenChars(w, s[1..])
  }

  /** `sub` can be obtained from `s` by deleting characters. */
  predicate IsSubsequence(sub: string, s: string) {
    if sub == [] then true
    else if s == [] then false
    else if sub[0] == s[0] then IsSubsequence(sub[1..], s[1..])
    else IsSubsequence(sub, s[1..])
  }

  /** Nothing is reported exactly when every character is allowed. */
  lemma {:induction false} ForbiddenCharsEmptyIff(w: WordClass, s: string)
    ensures ForbiddenChars(w, s) == [] <==> AllAllowed(w, s)
  {
    if s != [] {
      ForbiddenCharsEmptyIff(w, s[1..]);
      if AllAllowed(w, s[1..]) && Allowed(w, s[0]) {
        forall i | 0 <= i < |s|
          ensures Allowed(w, s[i])
        {
          if i > 0 {
            assert s[i] == s[1..][i - 1];
          }
        }
      }
      if !AllAllowed(w, s[1..]) {
        var i :| 0 <= i < |s[1..]| && !Allowed(w, s[1..][i]);
        assert s[i + 1] == s[1..][i];
      }
    }
  }

  /** The report is exactly the disallowed characters of `s`, in order: it
      is a subsequence of `s`, and it holds each disallowed character as
      often as `s` does and no allowed character at all. */
  lemma {:induction false} ForbiddenCharsExact(w: WordClass, s: string)
    ensures IsSubsequence(ForbiddenChars(w, s), s)
    ensures forall c :: !Allowed(w, c) ==> multiset(ForbiddenChars(w, s))[c] == multiset(s)[c]
    ensures forall c :: Allowed(w, c) ==> multiset(ForbiddenChars(w, s))[c] == 0
  {
    ForbiddenCharsSubsequence(w, s);
    ForbiddenCharsCounts(w, s);
  }

  lemma {:induction false} ForbiddenCharsSubsequence(w: WordClass, s: string)
    ensures IsSubsequence(ForbiddenChars(w, s), s)
  {
    if s != [] {
      ForbiddenCharsSubsequence(w, s[1..]);
      var rest := ForbiddenChars(w, s[1..]);
      if !Allowed(w, s[0]) {
        assert ForbiddenChars(w, s) == [s[0]] + rest;
        assert ForbiddenChars(w, s)[1..] == rest;
      } else {
        assert ForbiddenChars(w, s) == rest;
        SubsequenceOfTail(rest, s);
      }
    }
  }

  lemma {:induction false} ForbiddenCharsCounts(w: WordClass, s: string)
    ensures forall c :: !Allowed(w, c) ==> multiset(ForbiddenChars(w, s))[c] == multiset(s)[c]
    ensures forall c :: Allowed(w, c) ==> multiset(ForbiddenChars(w, s))[c] == 0
  {
    if s != [] {
      ForbiddenCharsCounts(w, s[1..]);
      var rest := ForbiddenChars(w, s[1..]);
      assert s == [s[0]] + s[1..];
      if !Allowed(w, s[0]) {
        assert ForbiddenChars(w, s) == [s[0]] + rest;
      } else {
        assert ForbiddenChars(w, s) == rest;
      }
    }
  }

  lemma {:induction false} SubsequenceOfTail(sub: string, s: string)
    requires s != [] && IsSubsequence(sub, s[1..])
    ensures IsSubsequence(sub, s)
    decreases |s|, |sub|
  {
    if sub != [] && sub[0] == s[0] {
      assert IsSubsequence(sub[1..], s[1..]) by {
        SubsequenceDropHead(sub, s[1..]);
      }
    }
  }

  lemma {:induction false} SubsequenceDropHead(sub: string, s: string)
    requires sub != [] && IsSubsequence(sub, s)
    ensures IsSubsequence(sub[1..], s)
    decreases |s|, |sub| + 1
  {
    if s != [] {
      if sub[0] == s[0] {
        SubsequenceOfTail(sub[1..], s);
      } else {
        SubsequenceDropHead(sub, s[1..]);
        SubsequenceOfTail(sub[1..], s);
      }
    }
  }

  /** The report distributes over concatenation. */
  lemma {:induction false} ForbiddenCharsAppend(w: WordClass, a: string, b: string)
    ensures ForbiddenChars(w, a + b) == ForbiddenChars(w, a) + ForbiddenChars(w, b)
  {
    if a != [] {
      assert (a + b)[1..] == a[1..] + b;
      ForbiddenCharsAppend(w, a[1..], b);
    } else {
      assert a + b == b;
    }
  }

  /** `value.lower() == 'me'`. */
  predicate IsMeIgnoringCase(s: string) {
    Text.Lower(s) == "me"
  }

  /** validate_username_format of reviews/validators.py. */
  function ValidateUsernameFormat(w: WordClass, s: string): (r: Result<string, UsernameError>)
    ensures r.Ok? ==> r.value == s
    ensures r.Ok? <==> AllAllowed(w, s) && !IsMeIgnoringCase(s)
    ensures r.Err? && r.error.ForbiddenCharacters? <==> !AllAllowed(w, s)
    ensures r.Err? && r.error.ForbiddenCharacters? ==> r.error.chars == ForbiddenChars(w, s)
  {
    ForbiddenCharsEmptyIff(w, s);
    var forbidden := ForbiddenChars(w, s);
    if forbidden != [] then Err(ForbiddenCharacters(forbidden))
    else if IsMeIgnoringCase(s) then Err(ReservedName)
    else Ok(s)
  }

  /** Every casing of "me" is refused as reserved. */
  lemma ReservedInEveryCasing(w: WordClass, s: string)
    requires CoversAscii(w)
    requires s in {"me", "Me", "mE", "ME"}
    ensures ValidateUsernameFormat(w, s) == Err(ReservedName)
  {
    assert IsAsciiWordChar(s[0]) && IsAsciiWordChar(s[1]);
    assert AllAllowed(w, s);
  }

  /** The strings refused as reserved are exactly the casings of "me". */
  lemma ReservedOnlyForMe(w: WordClass, s: string)
    ensures ValidateUsernameFormat(w, s) == Err(ReservedName) ==> s in {"me", "Me", "mE", "ME"}
  {
    if IsMeIgnoringCase(s) {
      assert |s| == 2 && Text.LowerChar(s[0]) == 'm' && Text.LowerChar(s[1]) == 'e';
      assert s == [s[0], s[1]];
    }
  }

  /** The empty string has nothing forbidden and is not "me": accepted. */
  lemma EmptyAccepted(w: WordClass)
    ensures ValidateUsernameFormat(w, "") == Ok("")
  {
  }

  /** The character check runs first, but it never competes with the
      reserved-name check: a casing of "me" contains only word characters,
      so which error is reported depends on the input alone. */
  lemma {:induction false} ChecksNeverCompete(w: WordClass, s: string)
    requires CoversAscii(w)
    ensures IsMeIgnoringCase(s) ==> ForbiddenChars(w, s) == []
  {
    if IsMeIgnoringCase(s) {
      assert Text.LowerChar(s[0]) == 'm' && Text.LowerChar(s[1]) == 'e';
      assert IsAsciiWordChar(s[0]) && IsAsciiWordChar(s[1]);
      assert AllAllowed(w, s);
      ForbiddenCharsEmptyIff(w, s);
    }
  }

  /** `re.match(r'^[\w.@+-]+\Z', s)`: one or more allowed characters and
      then the end of the string. */
  function MatchesUsernamePattern(w: WordClass, s: string): (r: bool)
    ensures r <==> s != [] && AllAllowed(w, s)
  {
    s != [] && Allowed(w, s[0]) && (|s| == 1 || MatchesUsernamePattern(w, s[1..]))
  }

  /** The anchored pattern accepts exactly the non-empty strings from which
      the other variant would remove nothing. */
  lemma {:induction false} PatternIffNothingForbidden(w: WordClass, s: string)
    ensures MatchesUsernamePattern(w, s) <==> s != [] && ForbiddenChars(w, s) == []
  {
    if s != [] {
      if |s| > 1 {
        PatternIffNothingForbidden(w, s[1..]);
      }
      assert ForbiddenChars(w, s) == (if Allowed(w, s[0]) then [] else [s[0]]) + ForbiddenChars(w, s[1..]);
    }
  }

  /** validate_username_format of api/validators.py. */
  function ValidateUsernamePattern(w: WordClass, s: string): (r: Result<string, UsernameError>)
    ensures r.Ok? ==> r.value == s
    ensures r == Err(ReservedName) <==> s == "me"
    ensures r.Ok? <==> s != [] && AllAllowed(w, s) && s != "me"
  {
    PatternIffNothingForbidden(w, s);
    ForbiddenCharsEmptyIff(w, s);
    if s == "me" then Err(ReservedName)
    else if !MatchesUsernamePattern(w, s) then Err(BadFormat)
    else Ok(s)
  }

  /** Only the exact string "me" is reserved here: "Me" passes. */
  lemma PatternAcceptsCapitalMe(w: WordClass)
    requires CoversAscii(w)
    ensures ValidateUsernamePattern(w, "Me") == Ok("Me")
  {
    assert IsAsciiWordChar('M') && IsAsciiWordChar('e');
  }

  /** The empty string is refused by the pattern. */
  lemma PatternRejectsEmpty(w: WordClass)
    ensures ValidateUsernamePattern(w, "") == Err(BadFormat)
  {
  }

  /** Away from the empty string and the casings of "me", the two variants
      accept the same usernames. */
  lemma VariantsAgree(w: WordClass, s: string)
    requires s != [] && !IsMeIgnoringCase(s)
    ensures ValidateUsernameFormat(w, s).Ok? <==> ValidateUsernamePattern(w, s).Ok?
  {
  }
}
