/**
 * The sign-in screen's checks: the e-mail test `/@.*\./`, the order and
 * thresholds of the checks before a sign-in or sign-up request is sent, and
 * when the Sign Up button is disabled. Lengths are JavaScript string
 * lengths, in UTF-16 code units.
 */
module LoginScreen {
  import opened Wrappers
  import opened JsString

  /** The characters `.` in a regular expression does not match. */
  predicate IsLineTerminator(c: char) {
    c == '\n' || c == '\r' || c == '\U{2028}' || c == '\U{2029}'
  }

  /** No line terminator in `s[a..b]`. */
  predicate NoLineBreak(s: string, a: int, b: int) {
    forall k :: a <= k < b && 0 <= k < |s| ==> !IsLineTerminator(s[k])
  }

  /** Reference meaning of `/@.*\./.test(s)`: some `@` is followed later by a
      `.`, with no line terminator between them. */
  predicate EmailPattern(s: string) {
    exists i, j :: 0 <= i < j < |s| && s[i] == '@' && s[j] == '.' && NoLineBreak(s, i + 1, j)
  }

  /** The test run as a left-to-right scan; `seenAt` records an `@` on the
      current line. */
  function Scan(s: string, seenAt: bool): bool
    decreases |s|
  {
    if |s| == 0 then false
    else if seenAt && s[0] == '.' then true
    else if s[0] == '@' then Scan(s[1..], true)
    else if IsLineTerminator(s[0]) then Scan(s[1..], false)
    else Scan(s[1..], seenAt)
  }

  /** A `.` reachable from the start without crossing a line terminator. */
  predicate DotOnFirstLine(s: string) {
    exists j :: 0 <= j < |s| && s[j] == '.' && NoLineBreak(s, 0, j)
  }

  /** `emailValidation`. */
  function EmailValidation(email: string): (ok: bool)
    ensures ok <==> EmailPattern(email)
  {
    ScanMeaning(email, false);
    Scan(email, false)
  }

  /** What the scan decides: a match in the rest, or, after an `@`, a dot
      before the next line break. */
  lemma {:induction false} ScanMeaning(s: string, seenAt: bool)
    ensures Scan(s, seenAt) <==> (seenAt && DotOnFirstLine(s)) || EmailPattern(s)
    decreases |s|
  {
    if |s| > 0 {
      var t := s[1..];
      ScanMeaning(t, s[0] == '@' || (seenAt && !IsLineTerminator(s[0])));
      PatternOfTail(s);
      if seenAt && s[0] == '.' {
        assert NoLineBreak(s, 0, 0);
      } else if s[0] == '@' {
        AtThenDot(s);
      } else {
        DotOnFirstLineOfTail(s);
      }
    }
  }

  /** A match in the tail is a match; a match not starting at the head is in
      the tail. */
  lemma PatternOfTail(s: string)
    requires |s| > 0
    ensures EmailPattern(s[1..]) ==> EmailPattern(s)
    ensures EmailPattern(s) && s[0] != '@' ==> EmailPattern(s[1..])
  {
    var t := s[1..];
    if EmailPattern(t) {
      var i, j :| 0 <= i < j < |t| && t[i] == '@' && t[j] == '.' && NoLineBreak(t, i + 1, j);
      assert s[i + 1] == '@' && s[j + 1] == '.';
      assert NoLineBreak(s, i + 2, j + 1) by {
        forall k | i + 2 <= k < j + 1 ensures !IsLineTerminator(s[k]) {
          assert s[k] == t[k - 1];
        }
      }
    }
    if EmailPattern(s) && s[0] != '@' {
      var i, j :| 0 <= i < j < |s| && s[i] == '@' && s[j] == '.' && NoLineBreak(s, i + 1, j);
      assert i > 0;
      assert t[i - 1] == '@' && t[j - 1] == '.';
      assert NoLineBreak(t, i, j - 1) by {
        forall k | i <= k < j - 1 ensures !IsLineTerminator(t[k]) {
          assert t[k] == s[k + 1];
        }
      }
    }
  }

  /** With `@` at the head, a dot on the tail's first line completes a match
      starting there, and every match starting there is one. */
  lemma AtThenDot(s: string)
    requires |s| > 0 && s[0] == '@'
    ensures EmailPattern(s) <==> DotOnFirstLine(s[1..]) || EmailPattern(s[1..])
  {
    var t := s[1..];
    if DotOnFirstLine(t) {
      var j :| 0 <= j < |t| && t[j] == '.' && NoLineBreak(t, 0, j);
      assert s[j + 1] == '.';
      assert NoLineBreak(s, 1, j + 1) by {
        forall k | 1 <= k < j + 1 ensures !IsLineTerminator(s[k]) {
          assert s[k] == t[k - 1];
        }
      }
    }
    PatternOfTail(s);
    if EmailPattern(s) && !EmailPattern(t) {
      var i, j :| 0 <= i < j < |s| && s[i] == '@' && s[j] == '.' && NoLineBreak(s, i + 1, j);
      FirstLineFromMatch(s, i, j);
    }
  }

  /** A match from the head gives a dot on the tail's first line, or the
      match lies in the tail. */
  lemma FirstLineFromMatch(s: string, i: int, j: int)
    requires 0 <= i < j < |s| && s[i] == '@' && s[j] == '.' && NoLineBreak(s, i + 1, j)
    ensures DotOnFirstLine(s[1..]) || EmailPattern(s[1..])
  {
    var t := s[1..];
    if i == 0 {
      assert t[j - 1] == '.';
      assert NoLineBreak(t, 0, j - 1) by {
        forall k | 0 <= k < j - 1 ensures !IsLineTerminator(t[k]) {
          assert t[k] == s[k + 1];
        }
      }
    } else {
      assert t[i - 1] == '@' && t[j - 1] == '.';
      assert NoLineBreak(t, i, j - 1) by {
        forall k | i <= k < j - 1 ensures !IsLineTerminator(t[k]) {
          assert t[k] == s[k + 1];
        }
      }
    }
  }

  /** A head that is neither `@` nor a dot passes a first-line dot on to the
      tail, unless it is a line terminator, which ends the first line. */
  lemma DotOnFirstLineOfTail(s: string)
    requires |s| > 0 && s[0] != '@'
    ensures !IsLineTerminator(s[0]) && s[0] != '.' ==> (DotOnFirstLine(s) <==> DotOnFirstLine(s[1..]))
    ensures IsLineTerminator(s[0]) ==> !DotOnFirstLine(s)
  {
    var t := s[1..];
    if !IsLineTerminator(s[0]) && s[0] != '.' {
      if DotOnFirstLine(s) {
        var j :| 0 <= j < |s| && s[j] == '.' && NoLineBreak(s, 0, j);
        assert j > 0 && t[j - 1] == '.';
        assert NoLineBreak(t, 0, j - 1) by {
          forall k | 0 <= k < j - 1 ensures !IsLineTerminator(t[k]) {
            assert t[k] == s[k + 1];
          }
        }
      }
      if DotOnFirstLine(t) {
        var j :| 0 <= j < |t| && t[j] == '.' && NoLineBreak(t, 0, j);
        assert s[j + 1] == '.';
        assert NoLineBreak(s, 0, j + 1) by {
          forall k | 0 <= k < j + 1 ensures !IsLineTerminator(s[k]) {
            if k > 0 {
              assert s[k] == t[k - 1];
            }
          }
        }
      }
    }
    if IsLineTerminator(s[0]) {
      forall j | 0 <= j < |s| && s[j] == '.' ensures !NoLineBreak(s, 0, j) {
        assert j > 0;
      }
    }
  }

  /** The request a passing form sends. */
  datatype Request = Login(email: string, password: string) | Register(email: string, password: string)

  /** What pressing Log In (`isLogin`) or Sign Up does: the validation text
      shown, and the request sent, if any. */
  datatype Attempt = Attempt(validationError: string, sent: Option<Request>)

  const InvalidEmail := "Invalid email."
  const ShortPassword := "Password should be at least 6 characters."

  /** The length `handleAuth` demands of a password. */
  const MinPasswordLength := 7

  /** `handleAuth(isLogin)`: the e-mail check first, then the password
      length, then one request. A rejected attempt leaves the validation
      text set and sends nothing. */
  function HandleAuth(email: string, password: string, isLogin: bool): (r: Attempt)
    ensures r.sent.Some? <==> EmailPattern(email) && Utf16Length(password) >= MinPasswordLength
    ensures !EmailPattern(email) ==> r == Attempt(InvalidEmail, None)
    ensures EmailPattern(email) && Utf16Length(password) < MinPasswordLength ==> r == Attempt(ShortPassword, None)
    ensures r.sent.Some? ==> r.validationError == ""
                             && r.sent.value == (if isLogin then Login(email, password) else Register(email, password))
  {
    if !EmailValidation(email) then Attempt(InvalidEmail, None)
    else if Utf16Length(password) < MinPasswordLength then Attempt(ShortPassword, None)
    else Attempt("", Some(if isLogin then Login(email, password) else Register(email, password)))
  }

  /** `disabled={email.length < 1 || password.length < 6}` on Sign Up: the
      button is disabled exactly when the e-mail is empty or the password
      has fewer than six code units. */
  function SignUpDisabled(email: string, password: string): (disabled: bool)
    ensures disabled <==> email == [] || Utf16Length(password) < 6
  {
    Utf16Length(email) < 1 || Utf16Length(password) < 6
  }

  /** A six-character password is let through by the button but refused by
      `handleAuth` with a message saying six characters are enough. */
  lemma SixCharacterPasswordRefused()
    ensures var email, password := "a@b.c", "abcdef";
            && !SignUpDisabled(email, password)
            && Utf16Length(password) == 6
            && HandleAuth(email, password, false) == Attempt(ShortPassword, None)
  {
    var email, password := "a@b.c", "abcdef";
    assert email[1] == '@' && email[3] == '.' && NoLineBreak(email, 2, 3);
    assert Utf16Length(password) == 6;
  }

  /** The length the message announces. */
  const AnnouncedPasswordLength := 6

  /** `handleAuth` with the threshold its message announces. */
  function HandleAuthIntended(email: string, password: string, isLogin: bool): (r: Attempt)
    ensures r.sent.Some? <==> EmailPattern(email) && Utf16Length(password) >= AnnouncedPasswordLength
    ensures !EmailPattern(email) ==> r == Attempt(InvalidEmail, None)
    ensures EmailPattern(email) && Utf16Length(password) < AnnouncedPasswordLength ==> r == Attempt(ShortPassword, None)
    ensures r.sent.Some? ==> r.validationError == ""
                             && r.sent.value == (if isLogin then Login(email, password) else Register(email, password))
  {
    if !EmailValidation(email) then Attempt(InvalidEmail, None)
    else if Utf16Length(password) < AnnouncedPasswordLength then Attempt(ShortPassword, None)
    else Attempt("", Some(if isLogin then Login(email, password) else Register(email, password)))
  }

  /** With the announced threshold, an enabled Sign Up button and a valid
      e-mail always send the sign-up request. */
  lemma EnabledSignUpSends(email: string, password: string)
    requires !SignUpDisabled(email, password) && EmailPattern(email)
    ensures HandleAuthIntended(email, password, false).sent == Some(Register(email, password))
  {
  }

  /** The field each message marks: `validationError.includes('email')` for
      the e-mail field, `includes('Password')` for the password field. The
      e-mail message marks the e-mail field only. */
  lemma EmailMessageMarksEmail()
    ensures Includes(InvalidEmail, "email") && !Includes(InvalidEmail, "Password")
  {
    ContainsAt(InvalidEmail, "email", 8);
    assert forall k :: 0 <= k < |InvalidEmail| ==> InvalidEmail[k] != 'P';
    MissingCharExcludes(InvalidEmail, "Password", 0);
  }

  /** The password message marks the password field only. */
  lemma PasswordMessageMarksPassword()
    ensures Includes(ShortPassword, "Password") && !Includes(ShortPassword, "email")
  {
    ShortPasswordPieces();
    PiecesMarkPassword(ShortPassword, " should be at least ", "6 characters.");
  }

  lemma ShortPasswordPieces()
    ensures ShortPassword == "Password" + " should be at least " + "6 characters."
  {
  }

  /** A message that starts with `Password` and has no `m` after it names
      the password and not the e-mail. */
  lemma PiecesMarkPassword(s: string, b: string, c: string)
    requires s == "Password" + b + c && 'm' !in b && 'm' !in c
    ensures Includes(s, "Password") && !Includes(s, "email")
  {
    PrefixOccurs("Password", b + c);
    assert "Password" + b + c == "Password" + (b + c);
    ContainsAt(s, "Password", 0);
    NoCharInPieces(s, "Password", b, c, 'm');
    MissingCharExcludes(s, "email", 1);
  }

  lemma PrefixOccurs(a: string, b: string)
    ensures OccursAt(a + b, a, 0)
  {
    assert (a + b)[..|a|] == a;
  }

  lemma ContainsAt(s: string, t: string, i: int)
    requires OccursAt(s, t, i)
    ensures Includes(s, t)
  {
    IncludesIff(s, t);
  }

  /** A character missing from each of three pieces is missing from their
      concatenation. */
  lemma NoCharInPieces(s: string, a: string, b: string, c: string, ch: char)
    requires s == a + b + c
    requires forall k :: 0 <= k < |a| ==> a[k] != ch
    requires forall k :: 0 <= k < |b| ==> b[k] != ch
    requires forall k :: 0 <= k < |c| ==> c[k] != ch
    ensures ch !in s
  {
    forall k | 0 <= k < |s| ensures s[k] != ch {
      if k < |a| {
        assert s[k] == a[k];
      } else if k < |a| + |b| {
        assert s[k] == b[k - |a|];
      } else {
        assert s[k] == c[k - |a| - |b|];
      }
    }
  }

  /** Text lacking one of the characters of `t` does not contain `t`. */
  lemma MissingCharExcludes(s: string, t: string, k: int)
    requires 0 <= k < |t| && t[k] !in s
    ensures !Includes(s, t)
  {
    IncludesIff(s, t);
    forall i ensures !OccursAt(s, t, i) {
      if 0 <= i && i + |t| <= |s| {
        assert s[i..i + |t|][k] == s[i + k];
      }
    }
  }
}
