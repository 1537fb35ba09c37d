/** Rules of the user service: the list of roles in use, the end time of a
    posting ban, and the checks `CheckPostStatus`, `SignIn` and `SignUp` run,
    in the order they run them. The database, the validators, the clock and
    password hashing are parameters. */
module UserService {
  import opened Wrappers
  import opened Strings
  import opened Linq

  /** The status of an account in good standing (`constants.StatusOk`). */
  const StatusOk: int := 0

  /** The parts of a user record these rules read. */
  datatype Account = Account(id: int, status: int, password: string)

  // ---------------------------------------------------------------- GetRoles

  /** What one stored role column contributes to the list of roles: nothing
      when empty, its comma-separated segments (empty ones included) when it
      holds a comma, and itself otherwise. */
  function RoleSegments(role: string): (r: seq<string>)
    ensures role == "" ==> r == []
    ensures role != "" && ',' !in role ==> r == [role]
    ensures forall i :: 0 <= i < |r| ==> ',' !in r[i]
  {
    if |role| == 0 then []
    else if ',' in role then Split(role, ',')
    else [role]
  }

  /** The role list `GetRoles` builds before deduplicating: the segments of
      every stored role column, in order. */
  function RoleList(roles: seq<string>): seq<string>
  {
    if roles == [] then [] else RoleList(roles[..|roles| - 1]) + RoleSegments(roles[|roles| - 1])
  }

  /** `GetRoles`, given the role column of every user: each role once, in the
      order of its first appearance. */
  method GetRoles(roles: seq<string>) returns (result: seq<string>)
    ensures result == Distinct(RoleList(roles))
    ensures NoDup(result)
    ensures forall x :: x in result <==> x in RoleList(roles)
  {
    var roleList: seq<string> := [];
    for i := 0 to |roles|
      invariant roleList == RoleList(roles[..i])
    {
      assert roles[..i + 1][..i] == roles[..i];
      var role := roles[i];
      if |role| == 0 {
        continue;
      }
      if ',' in role {
        roleList := roleList + Split(role, ',');
      } else {
        roleList := roleList + [role];
      }
    }
    assert roles[..|roles|] == roles;
    result := Distinct(roleList);
  }

  /** A non-empty role column contributes exactly `strings.Split(role, ",")`:
      the branch on the comma only spares the split, and joining the segments
      with commas gives the column back. */
  lemma RoleSegmentsOfNonEmpty(role: string)
    requires role != ""
    ensures RoleSegments(role) == Split(role, ',')
    ensures Join(RoleSegments(role), ",") == role
  {
    JoinSplit(role, ',');
  }

  /** A role is in the list exactly when it is a segment of some stored column. */
  lemma {:induction false} RoleListMember(roles: seq<string>, x: string)
    ensures x in RoleList(roles) <==> exists i :: 0 <= i < |roles| && x in RoleSegments(roles[i])
  {
    if roles != [] {
      var init := roles[..|roles| - 1];
      RoleListMember(init, x);
      assert forall i :: 0 <= i < |init| ==> init[i] == roles[i];
      if x in RoleSegments(roles[|roles| - 1]) {
        assert x in RoleList(roles);
      }
    }
  }

  /** What `GetRoles` returns: no role twice, no role with a comma, every
      segment of every stored column, and the roles in the order they first
      appear in the columns. */
  lemma GetRolesResult(roles: seq<string>)
    ensures var r := Distinct(RoleList(roles));
      && NoDup(r)
      && (forall i :: 0 <= i < |r| ==> ',' !in r[i])
      && (forall x :: x in r <==> exists i :: 0 <= i < |roles| && x in RoleSegments(roles[i]))
      && (forall i, j :: 0 <= i < j < |r| ==> FirstIndex(RoleList(roles), r[i]) < FirstIndex(RoleList(roles), r[j]))
  {
    var r := Distinct(RoleList(roles));
    forall x ensures x in r <==> exists i :: 0 <= i < |roles| && x in RoleSegments(roles[i]) {
      RoleListMember(roles, x);
    }
    forall k | 0 <= k < |r| ensures ',' !in r[k] {
      RoleListMember(roles, r[k]);
      var i :| 0 <= i < |roles| && r[k] in RoleSegments(roles[i]);
    }
    DistinctKeepsFirstOccurrenceOrder(RoleList(roles));
  }

  // --------------------------------------------------------------- Forbidden

  /** Nanoseconds in a day: `time.Hour * 24`. */
  const DayNanos: int := 86_400_000_000_000

  /** Go's int64 arithmetic wraps around modulo 2^64. */
  function Wrap64(x: int): (r: int)
    ensures -0x8000_0000_0000_0000 <= r < 0x8000_0000_0000_0000
    ensures (x - r) % 0x1_0000_0000_0000_0000 == 0
    ensures -0x8000_0000_0000_0000 <= x < 0x8000_0000_0000_0000 ==> r == x
  {
    (x + 0x8000_0000_0000_0000) % 0x1_0000_0000_0000_0000 - 0x8000_0000_0000_0000
  }

  const ForbiddenDaysError: string := "禁言时间错误"
  const ForbiddenReasonPrefix: string := "禁言原因："

  /** The end time `Forbidden` stores for a ban of `days` days, or its error:
      -1 (for ever) for -1 days; the clock's timestamp `timestampAfter(d)` of
      now plus `d` nanoseconds, `d` being the wrapped product of the days and a
      day, for a positive number of days; an error for anything else. */
  function ForbiddenEndTime(days: int, timestampAfter: int -> int): (r: Result<int, string>)
    ensures days == -1 ==> r == Ok(-1)
    ensures days > 0 ==> r == Ok(timestampAfter(Wrap64(days * DayNanos)))
    ensures r.Err? <==> days != -1 && days <= 0
    ensures r.Err? ==> r.error == ForbiddenDaysError
  {
    if days == -1 then Ok(-1)
    else if days > 0 then Ok(timestampAfter(Wrap64(days * DayNanos)))
    else Err(ForbiddenDaysError)
  }

  /** The longest ban that does not wrap: up to 106751 days the duration is
      the exact product. */
  lemma ForbiddenDaysInRange(days: int)
    requires 0 < days <= 106751
    ensures Wrap64(days * DayNanos) == days * DayNanos
  {
  }

  /** A ban of 106752 days wraps to a negative duration: its end lies before now. */
  lemma ForbiddenDaysOverflow()
    ensures Wrap64(106752 * DayNanos) < 0
  {
  }

  datatype OperateLog = OperateLog(operatorId: int, opType: string, entityType: string, entityId: int, description: string)

  /** What one call of `Forbidden` does: the error it returns, the end time it
      writes to the user's record, and the operation it logs. */
  datatype ForbidEffect = ForbidEffect(error: Option<string>, endTime: Option<int>, log: Option<OperateLog>)

  /** `simple.IsNotBlank`: something other than white space. */
  predicate IsNotBlank(s: string)
    ensures IsNotBlank(s) <==> exists i :: 0 <= i < |s| && !IsSpace(s[i])
  {
    var r := TrimSpace(s);
    assert r != "" ==> s[TrimStart(s)] == r[0];
    r != ""
  }

  /** `Forbidden(operatorId, userId, days, reason)`; `updateFails` stands for the
      database refusing the update. */
  function Forbidden(operatorId: int, userId: int, days: int, reason: string,
                     timestampAfter: int -> int, updateFails: bool): (e: ForbidEffect)
    ensures ForbiddenEndTime(days, timestampAfter).Err? ==>
      e == ForbidEffect(Some(ForbiddenDaysError), None, None)
    ensures ForbiddenEndTime(days, timestampAfter).Ok? ==>
      && e.error == None
      && e.endTime == Some(ForbiddenEndTime(days, timestampAfter).value)
      && (e.log.Some? <==> !updateFails)
    ensures e.log.Some? ==>
      && e.log.value.operatorId == operatorId && e.log.value.entityId == userId
      && e.log.value.opType == OpTypeForbidden && e.log.value.entityType == EntityUser
      && (IsNotBlank(reason) ==> e.log.value.description == ForbiddenReasonPrefix + reason)
      && (!IsNotBlank(reason) ==> e.log.value.description == "")
  {
    match ForbiddenEndTime(days, timestampAfter)
    case Err(msg) => ForbidEffect(Some(msg), None, None)
    case Ok(forbiddenEndTime) =>
      var log :=
        if updateFails then None
        else
          var description := if IsNotBlank(reason) then ForbiddenReasonPrefix + reason else "";
          Some(OperateLog(operatorId, OpTypeForbidden, EntityUser, userId, description));
      ForbidEffect(None, Some(forbiddenEndTime), log)
  }

  /** `constants.OpTypeForbidden` and `constants.EntityUser`. */
  const OpTypeForbidden: string := "forbidden"
  const EntityUser: string := "user"

  /** A rejected number of days touches nothing: no update, no log. A ban is
      written and answered with no error whether or not the update succeeds. */
  lemma ForbiddenRejectsOnlyBadDays(operatorId: int, userId: int, days: int, reason: string,
                                    timestampAfter: int -> int, updateFails: bool)
    ensures var e := Forbidden(operatorId, userId, days, reason, timestampAfter, updateFails);
      (e.error.Some? <==> e.endTime.None?) && (e.error.Some? <==> days != -1 && days <= 0)
  {
  }

  // --------------------------------------------------------- CheckPostStatus

  /** The errors `CheckPostStatus` can return. */
  datatype PostError =
    | NotLogin
    | UserDisabled
    | ForbiddenError
    | InObservationPeriod(message: string)

  const ObservationPrefix: string := "账号尚在观察期，观察期时长："
  const ObservationSuffix: string := "秒，请稍后再试"

  /** The message of the observation-period error, naming the period in seconds. */
  function ObservationMessage(observeSeconds: int): (m: string)
    ensures |m| == |ObservationPrefix| + |Decimal(observeSeconds)| + |ObservationSuffix|
    ensures m[..|ObservationPrefix|] == ObservationPrefix
    ensures m[|ObservationPrefix|..|m| - |ObservationSuffix|] == Decimal(observeSeconds)
    ensures m[|m| - |ObservationSuffix|..] == ObservationSuffix
  {
    ObservationPrefix + Decimal(observeSeconds) + ObservationSuffix
  }

  /** The message tells the configured period: different periods give
      different messages. */
  lemma ObservationMessageNamesPeriod(a: int, b: int)
    requires ObservationMessage(a) == ObservationMessage(b)
    ensures a == b
  {
    var ma, mb := ObservationMessage(a), ObservationMessage(b);
    var p, q := |ObservationPrefix|, |ObservationSuffix|;
    assert ma[p..|ma| - q] == Decimal(a);
    assert mb[p..|mb| - q] == Decimal(b);
    DecimalInjective(a, b);
  }

  /** `CheckPostStatus(user)`: `isForbidden` and `inObservation` are the user
      model's `IsForbidden` and `InObservationPeriod`, `observeSeconds` the
      configured observation period. The checks run in a fixed order and the
      first that fails decides. */
  function CheckPostStatus(user: Option<Account>, isForbidden: Account -> bool,
                           observeSeconds: int, inObservation: (Account, int) -> bool): (r: Option<PostError>)
    ensures user.None? ==> r == Some(NotLogin)
    ensures r == Some(UserDisabled) <==> user.Some? && user.value.status != StatusOk
    ensures r == Some(ForbiddenError) <==>
      user.Some? && user.value.status == StatusOk && isForbidden(user.value)
    ensures r.Some? && r.value.InObservationPeriod? <==>
      user.Some? && user.value.status == StatusOk && !isForbidden(user.value) && inObservation(user.value, observeSeconds)
    ensures r.Some? && r.value.InObservationPeriod? ==> r.value.message == ObservationMessage(observeSeconds)
    ensures r == None <==>
      user.Some? && user.value.status == StatusOk && !isForbidden(user.value) && !inObservation(user.value, observeSeconds)
  {
    if user.None? then Some(NotLogin)
    else if user.value.status != StatusOk then Some(UserDisabled)
    else if isForbidden(user.value) then Some(ForbiddenError)
    else if inObservation(user.value, observeSeconds) then Some(InObservationPeriod(ObservationMessage(observeSeconds)))
    else None
  }

  /** A disabled account is reported as disabled even when it is also banned
      or still under observation. */
  lemma DisabledTakesPrecedence(u: Account, isForbidden: Account -> bool,
                                observeSeconds: int, inObservation: (Account, int) -> bool)
    requires u.status != StatusOk
    ensures CheckPostStatus(Some(u), isForbidden, observeSeconds, inObservation) == Some(UserDisabled)
  {
  }

  // ------------------------------------------------------------------ SignIn

  const EmptyUsernameError: string := "用户名/邮箱不能为空"
  const EmptyPasswordError: string := "密码不能为空"
  const NoSuchUserError: string := "用户不存在或被禁用"
  const WrongPasswordError: string := "密码错误"

  /** The account a sign-in names: looked up by email when the name passes the
      email validator, by username otherwise. */
  function FindAccount(username: string, isEmail: string -> bool,
                       byEmail: string -> Option<Account>, byUsername: string -> Option<Account>): (a: Option<Account>)
    ensures isEmail(username) ==> a == byEmail(username)
    ensures !isEmail(username) ==> a == byUsername(username)
  {
    if isEmail(username) then byEmail(username) else byUsername(username)
  }

  /** `SignIn(username, password)`; `validatePassword(hash, password)` is
      `simple.ValidatePassword`. */
  function SignIn(username: string, password: string, isEmail: string -> bool,
                  byEmail: string -> Option<Account>, byUsername: string -> Option<Account>,
                  validatePassword: (string, string) -> bool): (r: Result<Account, string>)
    ensures username == "" ==> r == Err(EmptyUsernameError)
    ensures username != "" && password == "" ==> r == Err(EmptyPasswordError)
    ensures r.Ok? <==>
      && username != "" && password != ""
      && FindAccount(username, isEmail, byEmail, byUsername).Some?
      && FindAccount(username, isEmail, byEmail, byUsername).value.status == StatusOk
      && validatePassword(FindAccount(username, isEmail, byEmail, byUsername).value.password, password)
    ensures r.Ok? ==> Some(r.value) == FindAccount(username, isEmail, byEmail, byUsername)
    ensures r == Err(WrongPasswordError) <==>
      && username != "" && password != ""
      && FindAccount(username, isEmail, byEmail, byUsername).Some?
      && FindAccount(username, isEmail, byEmail, byUsername).value.status == StatusOk
      && !validatePassword(FindAccount(username, isEmail, byEmail, byUsername).value.password, password)
  {
    if |username| == 0 then Err(EmptyUsernameError)
    else if |password| == 0 then Err(EmptyPasswordError)
    else
      var user := FindAccount(username, isEmail, byEmail, byUsername);
      if user.None? || user.value.status != StatusOk then Err(NoSuchUserError)
      else if !validatePassword(user.value.password, password) then Err(WrongPasswordError)
      else Ok(user.value)
  }

  /** Sign-in does not tell a missing account from a disabled one, and checks
      no password for either. */
  lemma SignInHidesDisabledAccounts(username: string, password: string, isEmail: string -> bool,
                                    byEmail: string -> Option<Account>, byUsername: string -> Option<Account>,
                                    validatePassword: (string, string) -> bool)
    requires username != "" && password != ""
    requires FindAccount(username, isEmail, byEmail, byUsername).None? ||
             FindAccount(username, isEmail, byEmail, byUsername).value.status != StatusOk
    ensures SignIn(username, password, isEmail, byEmail, byUsername, validatePassword) == Err(NoSuchUserError)
  {
  }

  // ------------------------------------------------------------------ SignUp

  const EmptyNicknameError: string := "昵称不能为空"
  const EmailRequiredError: string := "请输入邮箱"

  function EmailTakenError(email: string): string
  {
    "邮箱：" + email + " 已被占用"
  }

  function UsernameTakenError(username: string): string
  {
    "用户名：" + username + " 已被占用"
  }

  /** The validators and lookups `SignUp` consults. Each validator returns its
      error message, or nothing when the input is acceptable. */
  datatype SignUpChecks = SignUpChecks(
    isPassword: (string, string) -> Option<string>,
    isEmail: string -> Option<string>,
    isUsername: string -> Option<string>,
    emailTaken: string -> bool,
    usernameTaken: string -> bool)

  /** The record `SignUp` creates: an empty username or email is stored as NULL. */
  datatype NewUser = NewUser(username: Option<string>, email: Option<string>, nickname: string, password: string, status: int)

  function NullIfEmpty(s: string): (r: Option<string>)
    ensures r.None? <==> s == ""
    ensures r.Some? ==> r.value == s
  {
    if |s| == 0 then None else Some(s)
  }

  /** The validation of `SignUp` on inputs already trimmed. It passes exactly
      when every check passes, the username's only when one is given. A blank
      nickname is reported before any other problem; a bad password before any
      problem with the email; a missing, malformed or taken email before any
      problem with the username; a malformed username before a taken one. */
  function SignUpCheck(username: string, email: string, nickname: string, password: string, rePassword: string,
                       checks: SignUpChecks): (r: Option<string>)
    ensures r.None? <==>
      && nickname != "" && checks.isPassword(password, rePassword).None?
      && email != "" && checks.isEmail(email).None? && !checks.emailTaken(email)
      && (username != "" ==> checks.isUsername(username).None? && !checks.usernameTaken(username))
    ensures nickname == "" ==> r == Some(EmptyNicknameError)
    ensures nickname != "" && checks.isPassword(password, rePassword).Some? ==>
      r == checks.isPassword(password, rePassword)
    ensures nickname != "" && checks.isPassword(password, rePassword).None? ==>
      && (email == "" ==> r == Some(EmailRequiredError))
      && (email != "" && checks.isEmail(email).Some? ==> r == checks.isEmail(email))
      && (email != "" && checks.isEmail(email).None? && checks.emailTaken(email) ==> r == Some(EmailTakenError(email)))
    ensures
      && nickname != "" && checks.isPassword(password, rePassword).None?
      && email != "" && checks.isEmail(email).None? && !checks.emailTaken(email) && username != "" ==>
      && (checks.isUsername(username).Some? ==> r == checks.isUsername(username))
      && (checks.isUsername(username).None? && checks.usernameTaken(username) ==> r == Some(UsernameTakenError(username)))
  {
    if |nickname| == 0 then Some(EmptyNicknameError)
    else if checks.isPassword(password, rePassword).Some? then checks.isPassword(password, rePassword)
    else if |email| == 0 then Some(EmailRequiredError)
    else if checks.isEmail(email).Some? then checks.isEmail(email)
    else if checks.emailTaken(email) then Some(EmailTakenError(email))
    else if |username| > 0 && checks.isUsername(username).Some? then checks.isUsername(username)
    else if |username| > 0 && checks.usernameTaken(username) then Some(UsernameTakenError(username))
    else None
  }

  /** The record a sign-up that passes validation creates. */
  function Created(username: string, email: string, nickname: string, password: string, encode: string -> string): (u: NewUser)
    ensures u.username.None? <==> username == ""
    ensures u.username.Some? ==> u.username.value == username
    ensures u.email.None? <==> email == ""
    ensures u.email.Some? ==> u.email.value == email
    ensures u.nickname == nickname && u.password == encode(password) && u.status == StatusOk
  {
    NewUser(NullIfEmpty(username), NullIfEmpty(email), nickname, encode(password), StatusOk)
  }

  /** `SignUp(username, email, nickname, password, rePassword, flag)`: trims
      the names, validates, and creates the user. `encode` is
      `simple.EncodePassword`; `persist` is the transaction that inserts the
      record and sets its avatar, answering its error if it fails. */
  function SignUp(username: string, email: string, nickname: string, password: string, rePassword: string,
                  checks: SignUpChecks, encode: string -> string, persist: NewUser -> Option<string>): (r: Result<NewUser, string>)
    ensures var u, e, n := TrimSpace(username), TrimSpace(email), TrimSpace(nickname);
      var check, user := SignUpCheck(u, e, n, password, rePassword, checks), Created(u, e, n, password, encode);
      && (check.Some? ==> r == Err(check.value))
      && (check.None? && persist(user).Some? ==> r == Err(persist(user).value))
      && (r.Ok? <==> check.None? && persist(user).None?)
      && (r.Ok? ==> r.value == user && r.value.email == Some(e) && r.value.status == StatusOk && r.value.nickname != "")
  {
    SignUpTrimmed(TrimSpace(username), TrimSpace(email), TrimSpace(nickname), password, rePassword, checks, encode, persist)
  }

  /** Validation and creation once the names are trimmed. */
  function SignUpTrimmed(username: string, email: string, nickname: string, password: string, rePassword: string,
                         checks: SignUpChecks, encode: string -> string, persist: NewUser -> Option<string>): Result<NewUser, string>
  {
    match SignUpCheck(username, email, nickname, password, rePassword, checks)
    case Some(err) => Err(err)
    case None =>
      var user := Created(username, email, nickname, password, encode);
      match persist(user)
      case Some(err) => Err(err)
      case None => Ok(user)
  }

  /** An empty username is never validated or looked up: sign-up without a
      username does not depend on the username checks. */
  lemma SignUpWithoutUsername(email: string, nickname: string, password: string, rePassword: string,
                              checks: SignUpChecks, isUsername: string -> Option<string>, usernameTaken: string -> bool)
    ensures SignUpCheck("", email, nickname, password, rePassword, checks)
         == SignUpCheck("", email, nickname, password, rePassword, checks.(isUsername := isUsername, usernameTaken := usernameTaken))
  {
  }

  /** Sign-up trims its input first: surrounding white space on the username,
      the email or the nickname changes nothing. */
  lemma SignUpIgnoresSurroundingSpace(username: string, email: string, nickname: string, password: string, rePassword: string,
                                      checks: SignUpChecks, encode: string -> string, persist: NewUser -> Option<string>)
    ensures SignUp(TrimSpace(username), TrimSpace(email), TrimSpace(nickname), password, rePassword, checks, encode, persist)
         == SignUp(username, email, nickname, password, rePassword, checks, encode, persist)
  {
    TrimSpaceIdempotent(username);
    TrimSpaceIdempotent(email);
    TrimSpaceIdempotent(nickname);
  }
}
