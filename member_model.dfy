/** The Member record: status enum and default, non-empty name, unique email and membership number. */
module MemberModel {
  import opened Wrappers
  import opened ErrorUtil
  import opened Tables

  datatype MemberStatus = Active | Suspended

  const DefaultStatus := MemberStatus.Active

  datatype Member = Member(
    id: Id,
    name: string,
    email: string,
    membershipNumber: string,
    status: MemberStatus)

  function MemberKey(m: Member): Id { m.id }
  function MemberEmail(m: Member): Id { m.email }
  function MemberNumber(m: Member): Id { m.membershipNumber }

  /** The characters the `notEmpty` validator's pattern `^[\s\t\r\n]*$` treats as blank (JavaScript's `\s`). */
  predicate IsBlankChar(c: char) {
    || c == ' ' || c == '\t' || c == '\r' || c == '\n' || c == '\U{000C}' || c == '\U{000B}'
    || c == '\U{00A0}' || c == '\U{1680}' || '\U{2000}' <= c <= '\U{200A}'
    || c == '\U{2028}' || c == '\U{2029}' || c == '\U{202F}' || c == '\U{205F}'
    || c == '\U{3000}' || c == '\U{FEFF}'
  }

  /** `notEmpty`: the string has a character other than white space. */
  predicate NotEmpty(s: string) {
    exists i :: 0 <= i < |s| && !IsBlankChar(s[i])
  }

  /** What the validators accept. */
  predicate Valid(m: Member) {
    NotEmpty(m.name)
  }

  function Violations(m: Member): (r: seq<ErrorItem>)
    ensures r == [] <==> Valid(m)
  {
    if NotEmpty(m.name) then [] else [ValidatorViolation("notEmpty", "name")]
  }

  /** The attributes supplied to `Member.create` or `member.update`; `None` is an absent key. */
  datatype MemberInput = MemberInput(
    name: Option<string>,
    email: Option<string>,
    membershipNumber: Option<string>,
    status: Option<MemberStatus>)

  function NotNullViolations(input: MemberInput): seq<ErrorItem> {
    (if input.name.None? then [NotNullViolation("Member", "name")] else []) +
    (if input.email.None? then [NotNullViolation("Member", "email")] else []) +
    (if input.membershipNumber.None? then [NotNullViolation("Member", "membership_number")] else [])
  }

  function Build(id: Id, input: MemberInput): Member {
    Member(id, input.name.GetOr(""), input.email.GetOr(""), input.membershipNumber.GetOr(""),
           input.status.GetOr(DefaultStatus))
  }

  /** `Member.create(data)` before the INSERT: defaults, the not-null checks, then `notEmpty` on a present name. */
  function Create(id: Id, input: MemberInput): (r: Result<Member>)
    ensures r.Ok? <==> NotNullViolations(input) == [] && Valid(Build(id, input))
    ensures r.Ok? ==> r.value == Build(id, input) && r.value.status == input.status.GetOr(MemberStatus.Active)
    ensures r.Err? ==> r.error.name == ValidationErrorName
  {
    var m := Build(id, input);
    var items := NotNullViolations(input) + (if input.name.Some? then Violations(m) else []);
    if items == [] then Ok(m) else Err(ValidationError(items))
  }

  /** A name made only of spaces is rejected like an empty one. */
  lemma BlankNameRejected(id: Id, email: string, number: string)
    ensures Create(id, MemberInput(Some("  "), Some(email), Some(number), None)).Err?
    ensures Create(id, MemberInput(Some(""), Some(email), Some(number), None)).Err?
  {
  }

  /** `instance.set(data)`: supplied attributes replace the stored ones; the key is never assigned. */
  function Assign(m: Member, data: MemberInput): (r: Member)
    ensures r.id == m.id
    ensures data == MemberInput(None, None, None, None) ==> r == m
  {
    m.(name := data.name.GetOr(m.name), email := data.email.GetOr(m.email),
       membershipNumber := data.membershipNumber.GetOr(m.membershipNumber),
       status := data.status.GetOr(m.status))
  }

  /** `save()` of an existing member: the validators. */
  function Save(m: Member): (r: Result<Member>)
    ensures r.Ok? <==> Valid(m)
    ensures r.Ok? ==> r.value == m
  {
    var items := Violations(m);
    if items == [] then Ok(m) else Err(ValidationError(items))
  }
}
