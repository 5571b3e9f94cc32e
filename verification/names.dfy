/**
 Concrete inputs to the name check: a padded mixed-case name, a duplicate
 differing in case, a name too short, a name of two astral characters, and a
 family of plain three-letter names, whose only possible blocklist hit is "feo".
 */
module NameExamples {
  import opened Text
  import opened Validation

  /** Every entry of the blocklist is at least four characters long, except "feo". */
  lemma BlocklistShortEntries()
    ensures forall k :: 0 <= k < |Blocklist| ==> |Blocklist[k]| >= 4 || Blocklist[k] == "feo"
  {
  }

  lemma TooLongToOccur(s: string, p: string)
    requires |s| < |p|
    ensures !Includes(s, p)
  {
  }

  lemma NotFeo(t: string)
    requires |t| == 3 && Lower(t) != "feo"
    ensures !Includes(Lower(t), Lower("feo"))
  {
    assert Lower("feo") == "feo";
  }

  lemma {:induction false} ShortNameMissesAll(t: string, words: seq<string>)
    requires |t| == 3 && Lower(t) != "feo"
    requires forall k :: 0 <= k < |words| ==> |words[k]| >= 4 || words[k] == "feo"
    ensures !SomeOccurs(t, words)
    decreases |words|
  {
    if words != [] {
      if words[0] == "feo" {
        NotFeo(t);
      } else {
        TooLongToOccur(Lower(t), Lower(words[0]));
      }
      ShortNameMissesAll(t, words[1..]);
    }
  }

  /** A three-character name is offensive only if it is "feo" ignoring case. */
  lemma ShortNameInoffensive(t: string)
    requires |t| == 3 && Lower(t) != "feo"
    ensures !Offensive(t)
  {
    BlocklistShortEntries();
    ShortNameMissesAll(t, Blocklist);
  }

  lemma TrimPlain(s: string)
    requires s != [] && !IsWhitespace(s[0]) && !IsWhitespace(s[|s| - 1])
    ensures Trim(s) == s
  {
    assert LeadingWhitespace(s) == 0;
    assert WithoutTrailingWhitespace(s) == |s|;
  }

  /** A capitalised three-letter ASCII word keeps its spelling through the
      normalisation. */
  lemma PlainNameFormatted(t: string)
    requires |t| == 3 && 'A' <= t[0] <= 'Z' && 'a' <= t[1] <= 'z' && 'a' <= t[2] <= 'z'
    ensures Format(t) == t
  {
    var f := Format(t);
    assert f[0] == t[0];
    assert f[1] == t[1];
    assert f[2] == t[2];
  }

  lemma PlainNameNotFeo(t: string)
    requires |t| == 3 && 'A' <= t[0] <= 'Z' && t[0] != 'F'
    ensures Lower(t) != "feo"
  {
    assert Lower(t)[0] != 'f';
  }

  predicate PlainName(raw: string) {
    |raw| == 3 && 'A' <= raw[0] <= 'Z' && raw[0] != 'F' && 'a' <= raw[1] <= 'z' && 'a' <= raw[2] <= 'z'
  }

  predicate FreshInitial(raw: string, roster: seq<string>)
    requires |raw| > 0
  {
    forall a :: a in roster ==> |a| > 0 && LowerChar(a[0]) != LowerChar(raw[0])
  }

  lemma PlainNameValid(raw: string, roster: seq<string>)
    requires PlainName(raw) && Acceptable(raw, roster)
    ensures Validate(raw, roster).valid
  {
    TrimPlain(raw);
  }

  lemma PlainNameAcceptable(raw: string, roster: seq<string>)
    requires PlainName(raw) && FreshInitial(raw, roster)
    ensures Acceptable(raw, roster)
  {
    PlainNameUnique(raw, roster);
    AsciiLettersAllowed(raw);
    PlainNameInoffensive(raw);
  }

  lemma PlainNameKept(raw: string, roster: seq<string>)
    requires PlainName(raw)
    ensures Validate(raw, roster).cleaned == raw
  {
    TrimPlain(raw);
    PlainNameFormatted(raw);
  }

  /** A capitalised three-letter ASCII word not starting with F, whose initial
      no participant shares ignoring case, is admitted unchanged. */
  lemma PlainNameAdmitted(raw: string, roster: seq<string>)
    requires PlainName(raw) && FreshInitial(raw, roster)
    ensures Validate(raw, roster).valid
    ensures Validate(raw, roster).cleaned == raw
  {
    PlainNameAcceptable(raw, roster);
    PlainNameValid(raw, roster);
    PlainNameKept(raw, roster);
  }

  lemma PlainNameInoffensive(raw: string)
    requires PlainName(raw)
    ensures !Offensive(raw)
  {
    PlainNameNotFeo(raw);
    ShortNameInoffensive(raw);
  }

  lemma AsciiLettersAllowed(t: string)
    requires |t| == 3 && ('a' <= t[0] <= 'z' || 'A' <= t[0] <= 'Z') && 'a' <= t[1] <= 'z' && 'a' <= t[2] <= 'z'
    ensures AllAllowed(t)
  {
  }

  lemma PlainNameUnique(raw: string, roster: seq<string>)
    requires |raw| > 0 && FreshInitial(raw, roster)
    ensures !DuplicateOf(raw, roster)
  {
    forall a | a in roster ensures !EqualIgnoringCase(a, raw) {
      assert Lower(a)[0] != Lower(raw)[0];
    }
  }

  lemma PaddedTrim(s: string)
    requires s == "  JUAN perez  "
    ensures Trim(s) == "JUAN perez"
  {
    var r := Trim(s);
    PaddedLeading(s);
    PaddedTrailing(s);
    assert |r| == 10;
    assert r == s[2..12];
  }

  lemma PaddedLeading(s: string)
    requires s == "  JUAN perez  "
    ensures LeadingWhitespace(s) == 2
  {
    assert IsWhitespace(s[0]) && IsWhitespace(s[1]) && !IsWhitespace(s[2]);
  }

  lemma PaddedTrailing(s: string)
    requires s == "  JUAN perez  "
    ensures !IsWhitespace(s[11]) && AllWhitespace(s[12..])
  {
    assert IsWhitespace(s[12]) && IsWhitespace(s[13]);
  }

  lemma MixedCaseFormatted(t: string)
    requires t == "JUAN perez"
    ensures Format(t) == "Juan Perez"
  {
    var r := Format(t);
    assert r[0] == 'J';
    assert r[1] == 'u';
    assert r[2] == 'a';
    assert r[3] == 'n';
    assert r[4] == ' ';
    assert r[5] == 'P';
    assert r[6] == 'e';
    assert r[7] == 'r';
    assert r[8] == 'e';
    assert r[9] == 'z';
  }

  /** `"  JUAN perez  "` is stored as `"Juan Perez"`. */
  lemma CleanedExample()
    ensures Validate("  JUAN perez  ", []).cleaned == "Juan Perez"
  {
    PaddedTrim("  JUAN perez  ");
    MixedCaseFormatted("JUAN perez");
  }

  /** Adding "ana" after "Ana" is refused as a duplicate, with that message. */
  lemma DuplicateExample(raw: string, roster: seq<string>)
    requires raw == "ana" && roster == ["Ana"]
    ensures Validate(raw, roster).flags.duplicate
    ensures !Validate(raw, roster).valid
    ensures ErrorMessage(Validate(raw, roster).flags) == AlreadyAdded
  {
    TrimPlain(raw);
    SameNameDifferentCase(raw, roster[0]);
    LowerAnaNotFeo(raw);
    ShortNameInoffensive(raw);
    AsciiLettersAllowed(raw);
  }

  lemma SameNameDifferentCase(raw: string, a: string)
    requires raw == "ana" && a == "Ana"
    ensures EqualIgnoringCase(a, raw)
  {
    assert Lower(raw)[0] == 'a' && Lower(a)[0] == 'a';
    assert Lower(raw)[1] == 'n' && Lower(a)[1] == 'n';
    assert Lower(raw)[2] == 'a' && Lower(a)[2] == 'a';
  }

  lemma LowerAnaNotFeo(raw: string)
    requires raw == "ana"
    ensures Lower(raw) != "feo"
  {
    assert Lower(raw)[0] != 'f';
  }

  /** Two characters above U+FFFF have JavaScript length four, so the length
      check passes and the letters message is the one shown. */
  lemma AstralExample(raw: string)
    requires raw == "\U{1F600}\U{1F600}"
    ensures Utf16Length(Trim(raw)) == 4
    ensures !Validate(raw, []).flags.badLength
    ensures Validate(raw, []).flags.notLetters
    ensures ErrorMessage(Validate(raw, []).flags) == LettersOnly
  {
    TrimPlain(raw);
    assert !AllowedChar(raw[0]);
  }

  /** Two characters are too short, and that is the message shown. */
  lemma TooShortExample(raw: string)
    requires raw == "Al"
    ensures Validate(raw, []).flags.badLength
    ensures ErrorMessage(Validate(raw, []).flags) == LengthRange
  {
    TrimPlain(raw);
  }
}
