/** The sign-up page's pure helpers: phone-number formatting as the user types, the phone
    and password validators, and the password-confirmation check. The member entity's own
    bean-validation rule for passwords is stated beside the page's rule so the two can be
    compared. */
module SignupForm {
  import opened Text

  // ---------------------------------------------------------------------------
  // Phone numbers

  /** `replace(/[^\d]/g, '')`: the ASCII digits of `s`, in order. */
  function KeepDigits(s: string): (r: string)
    ensures AllDigits(r) && |r| <= |s|
    decreases |s|
  {
    if |s| == 0 then ""
    else (if IsDigit(s[0]) then [s[0]] else []) + KeepDigits(s[1..])
  }

  lemma {:induction false} KeepDigitsAppend(a: string, b: string)
    ensures KeepDigits(a + b) == KeepDigits(a) + KeepDigits(b)
    decreases |a|
  {
    if |a| > 0 {
      var head := if IsDigit(a[0]) then [a[0]] else [];
      assert (a + b)[0] == a[0];
      assert (a + b)[1..] == a[1..] + b;
      KeepDigitsAppend(a[1..], b);
      calc {
        KeepDigits(a + b);
        head + KeepDigits(a[1..] + b);
        head + (KeepDigits(a[1..]) + KeepDigits(b));
        (head + KeepDigits(a[1..])) + KeepDigits(b);
      }
    } else {
      assert a + b == b;
    }
  }

  lemma {:induction false} KeepDigitsOfDigits(s: string)
    requires AllDigits(s)
    ensures KeepDigits(s) == s
    decreases |s|
  {
    if |s| > 0 {
      assert AllDigits(s[1..]) by {
        forall i | 0 <= i < |s[1..]| ensures IsDigit(s[1..][i]) {
          assert s[1..][i] == s[i + 1];
        }
      }
      KeepDigitsOfDigits(s[1..]);
    }
  }

  const PhoneDigits: nat := 11

  /** The digits the formatter keeps: at most the first eleven. */
  function PhoneDigitsOf(input: string): (v: string)
    ensures AllDigits(v) && |v| <= PhoneDigits
  {
    var d := KeepDigits(input);
    if |d| >= PhoneDigits then d[..PhoneDigits] else d
  }

  /** `formatPhoneNumber`: eleven digits become 3-4-4, four to six digits become 3-rest,
      anything else stays as bare digits (the 3-4-4 pattern needs all eleven, so seven to
      ten digits are left alone). */
  function FormatPhoneNumber(input: string): (r: string)
    ensures var v := PhoneDigitsOf(input);
            && (|v| == 11 ==> r == v[..3] + "-" + v[3..7] + "-" + v[7..])
            && (4 <= |v| <= 6 ==> r == v[..3] + "-" + v[3..])
            && (|v| <= 3 || 7 <= |v| <= 10 ==> r == v)
  {
    var v := PhoneDigitsOf(input);
    if |v| > 6 then
      if |v| == PhoneDigits then v[..3] + "-" + v[3..7] + "-" + v[7..] else v
    else if |v| > 3 then v[..3] + "-" + v[3..]
    else v
  }

  /** Formatting only inserts dashes: removing them gives back the kept digits. */
  lemma FormatOnlyInsertsDashes(input: string)
    ensures KeepDigits(FormatPhoneNumber(input)) == PhoneDigitsOf(input)
  {
    var v := PhoneDigitsOf(input);
    var r := FormatPhoneNumber(input);
    if |v| == 11 {
      KeepDigitsAroundDash(v[..3] + "-" + v[3..7], v[7..]);
      KeepDigitsAroundDash(v[..3], v[3..7]);
      KeepDigitsOfDigits(v[..3]);
      KeepDigitsOfDigits(v[3..7]);
      KeepDigitsOfDigits(v[7..]);
      assert v[..3] + v[3..7] + v[7..] == v;
    } else if 4 <= |v| <= 6 {
      KeepDigitsAroundDash(v[..3], v[3..]);
      KeepDigitsOfDigits(v[..3]);
      KeepDigitsOfDigits(v[3..]);
      assert v[..3] + v[3..] == v;
    } else {
      KeepDigitsOfDigits(v);
    }
  }

  /** Nothing but digits and dashes appears in a formatted value. */
  lemma FormatAlphabet(input: string)
    ensures forall i | 0 <= i < |FormatPhoneNumber(input)| ::
              IsDigit(FormatPhoneNumber(input)[i]) || FormatPhoneNumber(input)[i] == '-'
  {
    var v := PhoneDigitsOf(input);
    var r := FormatPhoneNumber(input);
    forall i | 0 <= i < |r| ensures IsDigit(r[i]) || r[i] == '-' {
      if |v| == 11 {
        if i < 3 { assert r[i] == v[i]; }
        else if 3 < i < 8 { assert r[i] == v[i - 1]; }
        else if 8 < i { assert r[i] == v[i - 2]; }
      } else if 4 <= |v| <= 6 {
        if i < 3 { assert r[i] == v[i]; }
        else if 3 < i { assert r[i] == v[i - 1]; }
      }
    }
  }

  /** A dash contributes nothing to the digits. */
  lemma KeepDigitsAroundDash(a: string, b: string)
    ensures KeepDigits(a + "-" + b) == KeepDigits(a) + KeepDigits(b)
  {
    assert KeepDigits("-") == "";
    KeepDigitsAppend(a + "-", b);
    KeepDigitsAppend(a, "-");
  }

  /** Re-formatting a formatted value returns it unchanged: the dashes are stripped first
      and the same digits are laid out again. */
  lemma FormatIdempotent(input: string)
    ensures FormatPhoneNumber(FormatPhoneNumber(input)) == FormatPhoneNumber(input)
  {
    FormatOnlyInsertsDashes(input);
    assert PhoneDigitsOf(FormatPhoneNumber(input)) == PhoneDigitsOf(input);
  }

  /** `isValidPhoneNumber`, and the member entity's `@Pattern` on the phone column:
      `010-`, four digits, a dash, four digits, and nothing else. */
  predicate IsValidPhoneNumber(p: string) {
    && |p| == 13
    && p[..4] == "010-"
    && AllDigits(p[4..8])
    && p[8] == '-'
    && AllDigits(p[9..])
  }

  /** A formatted value passes the validator exactly when at least eleven digits were
      typed and the first three were 010. */
  lemma FormattedIsValidIff(input: string)
    ensures IsValidPhoneNumber(FormatPhoneNumber(input)) <==>
              |PhoneDigitsOf(input)| == 11 && PhoneDigitsOf(input)[..3] == "010"
  {
    var v := PhoneDigitsOf(input);
    var r := FormatPhoneNumber(input);
    if |v| == 11 {
      assert r[..4] == v[..3] + "-";
      assert r[4..8] == v[3..7];
      assert r[9..] == v[7..];
      assert r[..3] == v[..3] && r[8] == '-';
      if v[..3] == "010" {
        assert AllDigits(r[4..8]) by {
          forall i | 0 <= i < 4 ensures IsDigit(r[4..8][i]) { assert r[4..8][i] == v[3 + i]; }
        }
        assert AllDigits(r[9..]) by {
          forall i | 0 <= i < 4 ensures IsDigit(r[9..][i]) { assert r[9..][i] == v[7 + i]; }
        }
      }
    } else {
      assert |r| != 13;
    }
  }

  /** Up to eleven typed digits are all kept, in order, so the layout above applies to
      exactly what was typed. */
  lemma DigitsAreKept(v: string)
    requires AllDigits(v) && |v| <= PhoneDigits
    ensures PhoneDigitsOf(v) == v
  {
    KeepDigitsOfDigits(v);
  }

  // ---------------------------------------------------------------------------
  // Passwords

  predicate IsLowerAscii(c: char) { 'a' <= c <= 'z' }
  predicate IsUpperAscii(c: char) { 'A' <= c <= 'Z' }

  /** The characters JavaScript's `.` does not match. */
  predicate IsJsLineTerminator(c: char) {
    c == '\n' || c == '\r' || c == '\U{2028}' || c == '\U{2029}'
  }

  /** The characters Java's `.` does not match: JavaScript's four and NEXT LINE. */
  predicate IsJavaLineTerminator(c: char) {
    IsJsLineTerminator(c) || c == '\U{0085}'
  }

  /** A string's length in UTF-16 code units, which is what both `String.length`s count. */
  function Utf16Length(s: string): (n: nat)
    ensures |s| <= n <= 2 * |s|
  {
    if |s| == 0 then 0 else (if s[0] as int >= 0x1_0000 then 2 else 1) + Utf16Length(s[1..])
  }

  predicate HasLower(p: string) { exists i | 0 <= i < |p| :: IsLowerAscii(p[i]) }
  predicate HasUpper(p: string) { exists i | 0 <= i < |p| :: IsUpperAscii(p[i]) }
  predicate HasDigit(p: string) { exists i | 0 <= i < |p| :: IsDigit(p[i]) }

  /** `isValidPassword`: a lowercase and an uppercase ASCII letter, an ASCII digit, at
      least six code units and no line terminator (the trailing `.{6,}$` must cover the
      whole string); there is no upper bound. */
  predicate IsValidPassword(p: string) {
    && HasLower(p) && HasUpper(p) && HasDigit(p)
    && (forall i | 0 <= i < |p| :: !IsJsLineTerminator(p[i]))
    && Utf16Length(p) >= 6
  }

  /** The member entity's rule: the same three character classes, no line terminator,
      and between six and ten code units. */
  predicate ServerAcceptsPassword(p: string) {
    && HasLower(p) && HasUpper(p) && HasDigit(p)
    && (forall i | 0 <= i < |p| :: !IsJavaLineTerminator(p[i]))
    && 6 <= Utf16Length(p) <= 10
  }

  /** Every password the server accepts passes the page's check. */
  lemma ServerRuleIsStricter(p: string)
    ensures ServerAcceptsPassword(p) ==> IsValidPassword(p)
  {
  }

  /** The page lets through long passwords that the server then refuses: `Aa1` followed
      by eight more letters is one. */
  lemma PageAcceptsLongPassword()
    ensures var q := "Aa1" + seq(8, _ => 'a');
            IsValidPassword(q) && !ServerAcceptsPassword(q)
  {
    var q := "Aa1" + seq(8, _ => 'a');
    assert IsLowerAscii(q[1]) && IsUpperAscii(q[0]) && IsDigit(q[2]);
  }

  /** The single scan a regular-expression engine performs for `isValidPassword`. */
  method CheckPassword(p: string) returns (ok: bool)
    ensures ok <==> IsValidPassword(p)
  {
    var lower, upper, digit, clean := false, false, false, true;
    var units := 0;
    var i := 0;
    while i < |p|
      invariant 0 <= i <= |p|
      invariant lower <==> exists k | 0 <= k < i :: IsLowerAscii(p[k])
      invariant upper <==> exists k | 0 <= k < i :: IsUpperAscii(p[k])
      invariant digit <==> exists k | 0 <= k < i :: IsDigit(p[k])
      invariant clean <==> forall k | 0 <= k < i :: !IsJsLineTerminator(p[k])
      invariant units + Utf16Length(p[i..]) == Utf16Length(p)
    {
      assert p[i..][1..] == p[i + 1..];
      var c := p[i];
      lower := lower || IsLowerAscii(c);
      upper := upper || IsUpperAscii(c);
      digit := digit || IsDigit(c);
      clean := clean && !IsJsLineTerminator(c);
      units := units + if c as int >= 0x1_0000 then 2 else 1;
      i := i + 1;
    }
    ok := lower && upper && digit && clean && units >= 6;
  }

  // ---------------------------------------------------------------------------
  // Password confirmation

  const PasswordMismatch: string := "비밀번호가 일치하지 않습니다."

  /** What the check does to the confirmation field's error message. */
  datatype Feedback = ShowError(message: string) | ClearError | Untouched

  /** `validatePasswordMatch`: the verdict and what happens to the field's error. */
  function ValidatePasswordMatch(password: string, confirm: string): (r: (bool, Feedback))
    ensures !r.0 <==> r.1 == ShowError(PasswordMismatch)
    ensures r.1 == Untouched <==> confirm == ""
    ensures r.1 == ClearError <==> confirm != "" && confirm == password
  {
    if confirm != "" && password != confirm then (false, ShowError(PasswordMismatch))
    else if confirm != "" then (true, ClearError)
    else (true, Untouched)
  }

  /** The check fails only for a non-empty confirmation that differs: an empty
      confirmation passes whatever the password is. */
  lemma MatchFailsOnlyOnMismatch(password: string, confirm: string)
    ensures !ValidatePasswordMatch(password, confirm).0 <==> confirm != "" && confirm != password
    ensures ValidatePasswordMatch(password, "").0 && ValidatePasswordMatch(password, password).0
  {
  }
}
