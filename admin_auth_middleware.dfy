/**
 * The admin guard: a request must carry an `authorization` header starting
 * with "Bearer"; its second space-separated field is the token, which must
 * verify and name an existing admin.
 */
module AdminAuthMiddleware {
  import opened Common
  import opened Store

  predicate StartsWith(s: string, prefix: string) {
    |prefix| <= |s| && s[..|prefix|] == prefix
  }

  /** `s.split(" ")`: the fields between single spaces, empty ones included. */
  function Split(s: string): (r: seq<string>)
    ensures |r| >= 1
    ensures forall i :: 0 <= i < |r| ==> ' ' !in r[i]
    decreases |s|
  {
    if s == [] then [""]
    else
      var rest := Split(s[1..]);
      if s[0] == ' ' then [""] + rest
      else [[s[0]] + rest[0]] + rest[1..]
  }

  /** The fields put back together with single spaces. */
  function Join(fields: seq<string>): string
    requires |fields| >= 1
    decreases |fields|
  {
    if |fields| == 1 then fields[0] else fields[0] + " " + Join(fields[1..])
  }

  /** Splitting loses nothing: joining the fields gives back the header. */
  lemma {:induction false} JoinSplit(s: string)
    ensures Join(Split(s)) == s
    decreases |s|
  {
    if s != [] {
      JoinSplit(s[1..]);
      var rest := Split(s[1..]);
      if s[0] == ' ' {
        assert Split(s) == [""] + rest;
        assert ([""] + rest)[1..] == rest;
      } else {
        JoinHead(s[0], rest);
      }
    }
  }

  lemma JoinHead(c: char, fields: seq<string>)
    requires |fields| >= 1
    ensures Join([[c] + fields[0]] + fields[1..]) == [c] + Join(fields)
  {
    var f := [[c] + fields[0]] + fields[1..];
    if |fields| > 1 {
      assert f[1..] == fields[1..];
    }
  }

  /** Splitting fields joined with spaces gives the fields back, when none holds a space. */
  lemma {:induction false} SplitJoin(fields: seq<string>)
    requires |fields| >= 1
    requires forall i :: 0 <= i < |fields| ==> ' ' !in fields[i]
    ensures Split(Join(fields)) == fields
    decreases |fields|
  {
    if |fields| == 1 {
      SplitWord(fields[0], "");
      assert fields[0] + "" == fields[0];
    } else {
      SplitJoin(fields[1..]);
      var tail := Join(fields[1..]);
      SplitSpace(tail);
      SplitWord(fields[0], " " + tail);
      assert fields[0] + " " + tail == fields[0] + (" " + tail);
      var spaced := Split(" " + tail);
      assert spaced == [""] + fields[1..];
      assert spaced[0] == "" && spaced[1..] == fields[1..];
      assert fields[0] + spaced[0] == fields[0];
      assert Split(Join(fields)) == [fields[0]] + fields[1..];
      assert fields == [fields[0]] + fields[1..];
    }
  }

  lemma SplitSpace(t: string)
    ensures Split(" " + t) == [""] + Split(t)
  {
    assert (" " + t)[1..] == t;
  }

  /** A word without spaces in front of `t` extends the first field of `t`. */
  lemma {:induction false} SplitWord(w: string, t: string)
    requires ' ' !in w
    ensures Split(w + t) == [w + Split(t)[0]] + Split(t)[1..]
    decreases |w|
  {
    if w != [] {
      SplitWord(w[1..], t);
      assert (w + t)[1..] == w[1..] + t;
      assert w == [w[0]] + w[1..];
      assert [w[0]] + (w[1..] + Split(t)[0]) == w + Split(t)[0];
    } else {
      assert w + t == t;
      assert w + Split(t)[0] == Split(t)[0];
      assert [Split(t)[0]] + Split(t)[1..] == Split(t);
    }
  }

  /** `authorization.split(" ")[1]`, which is undefined when there is no second field. */
  function BearerToken(header: string): (r: Option<string>)
    ensures r.Some? <==> |Split(header)| >= 2
    ensures r.Some? ==> r.value == Split(header)[1] && ' ' !in r.value
  {
    var fields := Split(header);
    if |fields| >= 2 then Some(fields[1]) else None
  }

  /** The token of "Bearer <t>" is `t`. */
  lemma TokenOfBearerHeader(t: string)
    requires ' ' !in t
    ensures BearerToken("Bearer " + t) == Some(t)
  {
    SplitJoin(["Bearer", t]);
    assert Join(["Bearer", t]) == "Bearer" + " " + t;
    assert Join(["Bearer", t]) == "Bearer " + t;
  }

  /** The request proceeds as `admin`, or is refused with a status and a message. */
  datatype Guard = Proceed(id: Id, admin: Admin) | Refuse(status: nat, message: string)

  /**
   * `verify` stands for the token verifier: the id the token carries when its
   * signature checks out, `None` when verification throws. A missing token
   * never verifies.
   */
  function ProtectAdmin(authorization: Option<string>, verify: string -> Option<Id>, admins: map<Id, Admin>): (r: Guard)
    ensures !(Truthy(authorization) && StartsWith(authorization.value, "Bearer")) <==>
      r == Refuse(401, "Not authorized, no token")
    ensures r.Proceed? <==>
      && Truthy(authorization) && StartsWith(authorization.value, "Bearer")
      && BearerToken(authorization.value).Some?
      && verify(BearerToken(authorization.value).value).Some?
      && verify(BearerToken(authorization.value).value).value in admins
    ensures r.Proceed? ==>
      && r.id == verify(BearerToken(authorization.value).value).value
      && r.admin == admins[r.id]
    ensures r.Refuse? && Truthy(authorization) && StartsWith(authorization.value, "Bearer") ==>
      r == Refuse(401, "Not authorized, token failed")
  {
    if Truthy(authorization) && StartsWith(authorization.value, "Bearer") then
      var token := BearerToken(authorization.value);
      if token.None? then Refuse(401, "Not authorized, token failed")
      else
        var decoded := verify(token.value);
        if decoded.None? then Refuse(401, "Not authorized, token failed")
        else if decoded.value !in admins then Refuse(401, "Not authorized, token failed")
        else Proceed(decoded.value, admins[decoded.value])
    else Refuse(401, "Not authorized, no token")
  }

  /** A well-formed header whose token verifies for an existing admin lets the request through as that admin. */
  lemma ValidBearerProceeds(t: string, verify: string -> Option<Id>, admins: map<Id, Admin>)
    requires ' ' !in t && verify(t).Some? && verify(t).value in admins
    ensures ProtectAdmin(Some("Bearer " + t), verify, admins) == Proceed(verify(t).value, admins[verify(t).value])
  {
    TokenOfBearerHeader(t);
    assert ("Bearer " + t)[..6] == "Bearer";
  }
}
