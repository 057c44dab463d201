/** lib/admin.ts: the administrator allow-list read from `ADMIN_EMAILS`
    and the membership test made on a signed-in user's address. The
    environment variable is a parameter, `None` when it is unset. */
module Admin {
  import opened Prelude

  /** `process.env.ADMIN_EMAILS || ''`. */
  function RawList(env: Option<string>): string {
    if env.Some? then env.value else ""
  }

  /** The parts of the list, each trimmed. */
  function TrimmedParts(env: Option<string>): (r: seq<string>)
    ensures |r| == |Split(RawList(env), ',')|
    ensures forall i :: 0 <= i < |r| ==> r[i] == Trim(Split(RawList(env), ',')[i])
  {
    var parts := Split(RawList(env), ',');
    seq(|parts|, i requires 0 <= i < |parts| => Trim(parts[i]))
  }

  /** `getAdminEmails`: split on commas, trim, drop the empty parts. */
  function AdminEmails(env: Option<string>): (r: seq<string>)
    ensures forall e :: e in r <==> e != "" && e in TrimmedParts(env)
  {
    var trimmed := TrimmedParts(env);
    var r := Filter(trimmed, (e: string) => e != "");
    forall e | e != "" && e in trimmed
      ensures e in r
    {
      var i :| 0 <= i < |trimmed| && trimmed[i] == e;
    }
    forall e | e in r
      ensures e != "" && e in trimmed
    {
      var i :| 0 <= i < |r| && r[i] == e;
    }
    r
  }

  /** Every entry of the list is a non-empty address without a comma that
      neither starts nor ends with white space. */
  lemma AdminEmailsWellFormed(env: Option<string>)
    ensures forall e :: e in AdminEmails(env) ==>
      && e != ""
      && !IsSpace(e[0]) && !IsSpace(e[|e| - 1])
      && ',' !in e
  {
    forall e | e in AdminEmails(env)
      ensures e != "" && !IsSpace(e[0]) && !IsSpace(e[|e| - 1]) && ',' !in e
    {
      var parts := Split(RawList(env), ',');
      var i :| 0 <= i < |parts| && TrimmedParts(env)[i] == e;
      assert parts[i] in parts;
      var k :| OccursAt(parts[i], e, k);
    }
  }

  /** An unset or empty variable grants nobody. */
  lemma UnsetListIsEmpty(env: Option<string>)
    requires env.None? || env.value == ""
    ensures AdminEmails(env) == []
  {
    assert TrimmedParts(env) == [""];
  }

  /** `isAdmin`: false without an address, otherwise whether the
      lower-cased address is in the list as written. */
  function IsAdmin(email: Option<string>, env: Option<string>): bool {
    if email.None? || email.value == "" then false
    else Lower(email.value) in AdminEmails(env)
  }

  /** The address passes iff it is present and its lower-cased form is
      literally one of the parts of the variable. */
  lemma IsAdminCorrect(email: Option<string>, env: Option<string>)
    ensures IsAdmin(email, env) <==>
      email.Some? && email.value != "" &&
      exists i :: 0 <= i < |Split(RawList(env), ',')| && Trim(Split(RawList(env), ',')[i]) == Lower(email.value)
  {
    if email.Some? && email.value != "" {
      assert Lower(email.value) != "" by {
        assert |Lower(email.value)| == |email.value|;
      }
    }
  }

  /** List entries are not lower-cased: an entry holding an upper-case
      letter admits no address at all. */
  lemma UppercaseEntryNeverMatches(email: string, env: Option<string>)
    ensures forall e :: e in AdminEmails(env) && HasUpper(e) ==> Lower(email) != e
  {
    LowerHasNoUpper(email);
  }

  /** Lower-casing an address without upper-case letters changes nothing. */
  lemma LowerOfLowercase(s: string)
    requires !HasUpper(s)
    ensures Lower(s) == s
  {
    forall i | 0 <= i < |s| ensures Lower(s)[i] == s[i] {
      assert !IsUpper(s[i]);
    }
  }

  /** An all-lower-case entry admits every capitalisation of itself. */
  lemma LowercaseEntryMatchesAnyCase(email: string, env: Option<string>)
    ensures forall e :: e in AdminEmails(env) && !HasUpper(e) && Lower(email) == Lower(e) ==> IsAdmin(Some(email), env)
  {
    forall e | e in AdminEmails(env) && !HasUpper(e) && Lower(email) == Lower(e)
      ensures IsAdmin(Some(email), env)
    {
      LowerOfLowercase(e);
      assert |email| == |e|;
    }
  }

  /** `checkIsAdmin`: the server-side check, answering as `isAdmin`. */
  method CheckIsAdmin(userEmail: Option<string>, env: Option<string>) returns (admin: bool)
    ensures admin <==> userEmail.Some? && userEmail.value != "" && Lower(userEmail.value) in AdminEmails(env)
  {
    admin := IsAdmin(userEmail, env);
  }
}
