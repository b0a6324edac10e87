/**
 * The rule chain the upload handler applies to each tokenized data row,
 * first failing rule wins: enough columns, a non-empty trimmed name and
 * email, an email that matches `^[^\s@]+@[^\s@]+\.[^\s@]+$`, and a trimmed
 * name of at most 100 UTF-16 code units.
 */
module RowRules {
  import opened Strings

  const MaxNameLength := 100

  datatype Rejection = InsufficientColumns | MissingNameOrEmail | InvalidEmailFormat | NameTooLong

  /** What the chain makes of a row: the trimmed name and email to create, or the first rule that failed. */
  datatype Verdict = Accept(name: string, email: string) | Reject(reason: Rejection)

  function Max(a: int, b: int): int {
    if a < b then b else a
  }

  /** Every character is accepted by `[^\s@]`. */
  predicate Clean(t: string) {
    forall k | 0 <= k < |t| :: !IsSpace(t[k]) && t[k] != '@'
  }

  /** `s` is `a@b.c` with `a`, `b` and `c` non-empty clean runs, the `@` at
      index `i` and the `.` at index `j`. */
  predicate EmailSplit(s: string, i: int, j: int) {
    0 < i && i + 1 < j && j + 1 < |s| && s[i] == '@' && s[j] == '.'
    && Clean(s[..i]) && Clean(s[i + 1..j]) && Clean(s[j + 1..])
  }

  /** The language of the regular expression `^[^\s@]+@[^\s@]+\.[^\s@]+$`:
      some way of cutting `s` into the three runs exists. */
  ghost predicate MatchesEmailPattern(s: string) {
    exists i, j :: EmailSplit(s, i, j)
  }

  /** A `.` that is neither the first nor the last character. */
  predicate HasInnerDot(d: string) {
    exists j | 0 < j < |d| - 1 :: d[j] == '.'
  }

  /** The test the validator runs: no white space anywhere, a first `@`
      that is not the first character, no second `@`, and an inner `.`
      after the `@`. */
  predicate IsEmailShaped(s: string) {
    var at := IndexOf(s, '@');
    && at > 0
    && (forall k | 0 <= k < |s| :: !IsSpace(s[k]))
    && '@' !in s[at + 1..]
    && HasInnerDot(s[at + 1..])
  }

  lemma ShapedMatches(s: string)
    requires IsEmailShaped(s)
    ensures MatchesEmailPattern(s)
  {
    var at := IndexOf(s, '@');
    var d := s[at + 1..];
    var j0 :| 0 < j0 < |d| - 1 && d[j0] == '.';
    var j := at + 1 + j0;
    assert s[..at] == s[..at] && '@' !in s[..at];
    assert Clean(s[..at]) by {
      forall k | 0 <= k < at ensures !IsSpace(s[..at][k]) && s[..at][k] != '@' {
        assert s[..at][k] == s[k];
      }
    }
    assert s[at + 1..j] == d[..j0];
    assert Clean(d[..j0]) by {
      forall k | 0 <= k < j0 ensures !IsSpace(d[..j0][k]) && d[..j0][k] != '@' {
        assert d[..j0][k] == s[at + 1 + k];
      }
    }
    assert s[j + 1..] == d[j0 + 1..];
    var e := d[j0 + 1..];
    assert Clean(e) by {
      forall k | 0 <= k < |e| ensures !IsSpace(e[k]) && e[k] != '@' {
        assert e[k] == s[j + 1 + k];
      }
    }
    assert EmailSplit(s, at, j);
  }

  /** Where the pattern can cut `s`, the `@` is the first one. */
  lemma SplitAtFirstAt(s: string, i: int, j: int)
    requires EmailSplit(s, i, j)
    ensures IndexOf(s, '@') == i
  {
    assert s[i] == '@';
    var at := IndexOf(s, '@');
    forall k | 0 <= k < i ensures s[k] != '@' {
      assert s[k] == s[..i][k];
    }
    forall k | 0 <= k < at ensures s[k] != '@' {
      assert s[k] == s[..at][k];
    }
  }

  lemma SplitHasNoSpace(s: string, i: int, j: int)
    requires EmailSplit(s, i, j)
    ensures forall k | 0 <= k < |s| :: !IsSpace(s[k])
  {
    forall k | 0 <= k < |s| ensures !IsSpace(s[k]) {
      if k < i {
        assert s[k] == s[..i][k];
      } else if i < k < j {
        assert s[k] == s[i + 1..j][k - i - 1];
      } else if k > j {
        assert s[k] == s[j + 1..][k - j - 1];
      }
    }
  }

  lemma MatchesShaped(s: string)
    requires MatchesEmailPattern(s)
    ensures IsEmailShaped(s)
  {
    var i, j :| EmailSplit(s, i, j);
    SplitAtFirstAt(s, i, j);
    SplitHasNoSpace(s, i, j);
    var d := s[i + 1..];
    assert d[j - i - 1] == '.';
    forall k | 0 <= k < |d| ensures d[k] != '@' {
      if k < j - i - 1 {
        assert d[k] == s[i + 1..j][k];
      } else if k > j - i - 1 {
        assert d[k] == s[j + 1..][k - (j - i)];
      }
    }
  }

  /** The validator's test accepts exactly the strings the regular expression matches. */
  lemma EmailShapeIsPattern(s: string)
    ensures IsEmailShaped(s) <==> MatchesEmailPattern(s)
  {
    if IsEmailShaped(s) {
      ShapedMatches(s);
    }
    if MatchesEmailPattern(s) {
      MatchesShaped(s);
    }
  }

  /** The rule chain of one row, given the positions of the name and email columns. */
  function ValidateRow(values: seq<string>, nameIndex: nat, emailIndex: nat): (v: Verdict)
    ensures v == Reject(InsufficientColumns) <==> |values| <= Max(nameIndex, emailIndex)
    ensures |values| > Max(nameIndex, emailIndex) ==>
              var name, email := Trim(values[nameIndex]), Trim(values[emailIndex]);
              && (v.Accept? <==> name != [] && Utf16Length(name) <= MaxNameLength && MatchesEmailPattern(email))
              && (v.Accept? ==> v.name == name && v.email == email)
              && (v == Reject(MissingNameOrEmail) <==> name == [] || email == [])
              && (v == Reject(InvalidEmailFormat) <==> name != [] && email != [] && !MatchesEmailPattern(email))
              && (v == Reject(NameTooLong) <==>
                    name != [] && MatchesEmailPattern(email) && Utf16Length(name) > MaxNameLength)
  {
    if |values| <= Max(nameIndex, emailIndex) then Reject(InsufficientColumns)
    else
      var name := Trim(values[nameIndex]);
      var email := Trim(values[emailIndex]);
      EmailShapeIsPattern(email);
      if name == [] || email == [] then Reject(MissingNameOrEmail)
      else if !IsEmailShaped(email) then Reject(InvalidEmailFormat)
      else if Utf16Length(name) > MaxNameLength then Reject(NameTooLong)
      else Accept(name, email)
  }
}
