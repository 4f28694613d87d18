/** The member entity and `MemberService`: registration with its two uniqueness checks,
    and the lookups by e-mail and by id. A member's id is its index in the table. */
module MemberService {
  import opened Wrappers

  datatype MemberType = Student | Instructor

  datatype Member = Member(name: string, email: string, phoneNumber: string, password: string, memberType: MemberType)

  type MemberTable = seq<Member>

  const EmailInUsePrefix: string := "이미 사용 중인 이메일입니다: "
  const PhoneInUsePrefix: string := "이미 사용 중인 휴대폰 번호입니다: "

  /** `existsByEmail`. */
  predicate EmailTaken(t: MemberTable, email: string) {
    exists i | 0 <= i < |t| :: t[i].email == email
  }

  /** `existsByPhoneNumber`. */
  predicate PhoneTaken(t: MemberTable, phone: string) {
    exists i | 0 <= i < |t| :: t[i].phoneNumber == phone
  }

  /** The table's two unique columns: no two members share an e-mail or a phone number. */
  predicate UniqueContacts(t: MemberTable) {
    forall i, j | 0 <= i < j < |t| :: t[i].email != t[j].email && t[i].phoneNumber != t[j].phoneNumber
  }

  /** `registerMember`: the e-mail check comes first, then the phone check, and only then
      is the member saved; the result is the new table and the new member's id. */
  function RegisterMember(t: MemberTable, m: Member): (r: Result<(MemberTable, nat)>)
    ensures r.Ok? <==> !EmailTaken(t, m.email) && !PhoneTaken(t, m.phoneNumber)
    ensures EmailTaken(t, m.email) ==> r == Err(EmailInUsePrefix + m.email)
    ensures !EmailTaken(t, m.email) && PhoneTaken(t, m.phoneNumber) ==> r == Err(PhoneInUsePrefix + m.phoneNumber)
    ensures r.Ok? ==> r.value.0 == t + [m] && r.value.1 == |t| && r.value.0[r.value.1] == m
  {
    if EmailTaken(t, m.email) then Err(EmailInUsePrefix + m.email)
    else if PhoneTaken(t, m.phoneNumber) then Err(PhoneInUsePrefix + m.phoneNumber)
    else Ok((t + [m], |t|))
  }

  /** A successful registration keeps both columns unique and makes the new contacts taken. */
  lemma RegisterKeepsUnique(t: MemberTable, m: Member)
    requires UniqueContacts(t)
    ensures var r := RegisterMember(t, m);
            r.Ok? ==> UniqueContacts(r.value.0) && EmailTaken(r.value.0, m.email) && PhoneTaken(r.value.0, m.phoneNumber)
  {
    var r := RegisterMember(t, m);
    if r.Ok? {
      var t' := r.value.0;
      assert t'[|t|] == m;
      forall i, j | 0 <= i < j < |t'|
        ensures t'[i].email != t'[j].email && t'[i].phoneNumber != t'[j].phoneNumber
      {
        if j == |t| {
          assert t'[i] == t[i];
        }
      }
    }
  }

  /** Registering a sequence of requests one after the other; rejected requests are skipped. */
  function RegisterAll(t: MemberTable, requests: seq<Member>): (r: MemberTable)
    decreases |requests|
  {
    if |requests| == 0 then t
    else
      var first := RegisterMember(t, requests[0]);
      RegisterAll(if first.Ok? then first.value.0 else t, requests[1..])
  }

  /** After any sequence of registrations no two members share an e-mail or a phone
      number, and every member already stored is still there. */
  lemma {:induction false} RegisterAllKeepsUnique(t: MemberTable, requests: seq<Member>)
    requires UniqueContacts(t)
    ensures UniqueContacts(RegisterAll(t, requests))
    ensures |t| <= |RegisterAll(t, requests)| && RegisterAll(t, requests)[..|t|] == t
    decreases |requests|
  {
    if |requests| > 0 {
      var first := RegisterMember(t, requests[0]);
      RegisterKeepsUnique(t, requests[0]);
      var t1 := if first.Ok? then first.value.0 else t;
      RegisterAllKeepsUnique(t1, requests[1..]);
      assert RegisterAll(t1, requests[1..])[..|t1|][..|t|] == t1[..|t|];
      assert t1[..|t|] == t;
    }
  }

  /** `findMemberByEmail`: the member with that e-mail and its id, or nothing. */
  function FindByEmail(t: MemberTable, email: string): (r: Option<(nat, Member)>)
    ensures r.None? <==> !EmailTaken(t, email)
    ensures r.Some? ==> r.value.0 < |t| && t[r.value.0] == r.value.1 && r.value.1.email == email
    decreases |t|
  {
    if |t| == 0 then None
    else if t[|t| - 1].email == email then Some((|t| - 1, t[|t| - 1]))
    else
      var r := FindByEmail(t[..|t| - 1], email);
      assert !EmailTaken(t[..|t| - 1], email) ==> !EmailTaken(t, email) by {
        if EmailTaken(t, email) {
          var i :| 0 <= i < |t| && t[i].email == email;
          assert t[..|t| - 1][i].email == email;
        }
      }
      r
  }

  /** With unique e-mails the lookup finds the one member that has it. */
  lemma FindByEmailUnique(t: MemberTable, email: string, id: nat)
    requires UniqueContacts(t) && id < |t| && t[id].email == email
    ensures FindByEmail(t, email) == Some((id, t[id]))
  {
    assert EmailTaken(t, email);
  }

  /** A registered member can be found again by its e-mail and by its id. */
  lemma RegisteredIsFound(t: MemberTable, m: Member)
    requires UniqueContacts(t)
    ensures var r := RegisterMember(t, m);
            r.Ok? ==> FindByEmail(r.value.0, m.email) == Some((|t|, m)) && FindById(r.value.0, |t|) == Some(m)
  {
    var r := RegisterMember(t, m);
    if r.Ok? {
      RegisterKeepsUnique(t, m);
      FindByEmailUnique(r.value.0, m.email, |t|);
    }
  }
}
