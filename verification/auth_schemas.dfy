/** The request and response shapes of `app/schemas/auth.py`: the field
    constraints pydantic enforces on a signup body, and the public view of a
    user. String lengths are Python `len`, a count of characters. */
module AuthSchemas {
  import opened Wrappers
  import opened Validation
  import Utf8
  import UsersRepo
  import Hasher

  datatype SignUpPayload = SignUpPayload(fullname: string, email: string, password: string)

  const FullnameMin: nat := 1
  const FullnameMax: nat := 50
  const PasswordMin: nat := 8
  const PasswordMax: nat := 72

  /** The errors one length-bounded string field produces. */
  function LengthErrors(field: string, value: string, min: nat, max: nat): (es: seq<FieldError>)
    ensures |es| == 0 <==> min <= |value| <= max
    ensures HasErrorAt(es, ["body", field]) <==> !(min <= |value| <= max)
    ensures forall e :: e in es ==> e.loc == ["body", field]
  {
    if |value| < min then [FieldError(["body", field], "string_too_short")]
    else if |value| > max then [FieldError(["body", field], "string_too_long")]
    else []
  }

  /** Errors gathered from three fields, each reporting only at its own
      location, are found at a location exactly when its own field has one. */
  lemma SeparateFields(a: seq<FieldError>, b: seq<FieldError>, c: seq<FieldError>,
                       la: seq<string>, lb: seq<string>, lc: seq<string>)
    requires la != lb && lb != lc && la != lc
    requires forall e :: e in a ==> e.loc == la
    requires forall e :: e in b ==> e.loc == lb
    requires forall e :: e in c ==> e.loc == lc
    ensures HasErrorAt(a + b + c, la) <==> HasErrorAt(a, la)
    ensures HasErrorAt(a + b + c, lb) <==> HasErrorAt(b, lb)
    ensures HasErrorAt(a + b + c, lc) <==> HasErrorAt(c, lc)
  {
    HasErrorAtAppend(a, b, la);
    HasErrorAtAppend(a + b, c, la);
    HasErrorAtAppend(a, b, lb);
    HasErrorAtAppend(a + b, c, lb);
    HasErrorAtAppend(a, b, lc);
    HasErrorAtAppend(a + b, c, lc);
  }

  /** Validation of a signup body. `EmailStr` validity is a library rule
      the model takes as the predicate `isEmail`. */
  function ValidateSignUp(fullname: string, email: string, password: string, isEmail: string -> bool)
    : (r: Result<SignUpPayload, seq<FieldError>>)
    ensures r.Ok? <==> FullnameMin <= |fullname| <= FullnameMax && isEmail(email)
                       && PasswordMin <= |password| <= PasswordMax
    ensures r.Ok? ==> r.value == SignUpPayload(fullname, email, password)
    ensures r.Err? ==> |r.error| > 0
    ensures r.Err? ==> (HasErrorAt(r.error, ["body", "fullname"]) <==> !(FullnameMin <= |fullname| <= FullnameMax))
    ensures r.Err? ==> (HasErrorAt(r.error, ["body", "email"]) <==> !isEmail(email))
    ensures r.Err? ==> (HasErrorAt(r.error, ["body", "password"]) <==> !(PasswordMin <= |password| <= PasswordMax))
  {
    var nameErrors := LengthErrors("fullname", fullname, FullnameMin, FullnameMax);
    var emailErrors := if isEmail(email) then [] else [FieldError(["body", "email"], "value_error")];
    var passwordErrors := LengthErrors("password", password, PasswordMin, PasswordMax);
    var errors := nameErrors + emailErrors + passwordErrors;
    SeparateFields(nameErrors, emailErrors, passwordErrors, ["body", "fullname"], ["body", "email"], ["body", "password"]);
    assert !isEmail(email) ==> emailErrors[0] in emailErrors;
    if |errors| == 0 then Ok(SignUpPayload(fullname, email, password)) else Err(errors)
  }

  /** `UserOut`: the fields of a user the API reveals. */
  datatype UserOut = UserOut(id: int, fullname: string, email: string, createdAt: int)

  /** `UserOut.from_orm(user)`. */
  function ToUserOut(u: UsersRepo.User): (v: UserOut)
    ensures v.id == u.id && v.fullname == u.fullname && v.email == u.email && v.createdAt == u.createdAt
  {
    UserOut(u.id, u.fullname, u.email, u.createdAt)
  }

  /** The public view never depends on the password hash: two users that
      differ only in it look the same. */
  lemma UserOutHidesHash(u: UsersRepo.User, h: Hasher.PasswordHash)
    ensures ToUserOut(u) == ToUserOut(u.(passwordHash := h))
  {
  }

  /** A password within the 72-byte ceiling is within the 72-character cap,
      because every character takes at least one byte. */
  lemma ByteCeilingWithinCharCap(p: string)
    requires Utf8.ByteLength(p) <= 72
    ensures |p| <= PasswordMax
  {
    Utf8.ByteLengthBounds(p);
  }

  /** The converse fails: 19 four-byte characters pass the character cap
      (and the minimum) but take 76 bytes. */
  lemma CharCapAdmitsOverlongBytes()
    ensures var p := seq(19, _ => '\U{1F600}');
      PasswordMin <= |p| <= PasswordMax && Utf8.ByteLength(p) > 72
  {
    var p := seq(19, _ => '\U{1F600}');
    RepeatByteLength('\U{1F600}', 19);
  }

  lemma {:induction false} RepeatByteLength(c: char, n: nat)
    ensures Utf8.ByteLength(seq(n, _ => c)) == n * Utf8.ScalarLength(c)
  {
    if n > 0 {
      assert seq(n, _ => c)[1..] == seq(n - 1, _ => c);
      RepeatByteLength(c, n - 1);
    }
  }
}
