/**
 * The staff entity's password handling: signing in against the stored hash,
 * with a one-time upgrade of a legacy SHA-1 hash to SHA-2, and changing the
 * password.
 */
module StaffEntity {
  import opened JavaLang

  /** A client password as the bytes the caller supplies. */
  type Bytes = seq<bv8>

  /** The two digest functions, as strings comparable with the stored password
      column; what they compute is not part of this model. */
  datatype Digests = Digests(sha1: Bytes -> string, sha2: Bytes -> string)

  /** Whether signing in with the client password against the stored hash
      succeeds: no password against no hash, or a password whose SHA-1 or SHA-2
      digest is the stored hash. */
  predicate Accepts(digests: Digests, stored: Option<string>, client: Option<Bytes>): (b: bool)
    ensures stored.None? ==> (b <==> client.None?)
    ensures b && client.Some? ==> stored.Some?
  {
    match client
    case None => stored.None?
    case Some(p) => stored == Some(digests.sha1(p)) || stored == Some(digests.sha2(p))
  }

  /** The staff entity, with the password column and the digests it is checked with. */
  class Staff {
    var username: string
    var password: Option<string>
    const digests: Digests

    constructor (username: string, password: Option<string>, digests: Digests)
      ensures this.username == username && this.password == password && this.digests == digests
    {
      this.username := username;
      this.password := password;
      this.digests := digests;
    }

    /** signIn: without a password, succeeds only when none is stored; with one,
        a SHA-1 match (tried first) replaces the stored hash with the SHA-2 one, a
        SHA-2 match leaves it, and anything else throws IllegalStateException. */
    method SignIn(clientPassword: Option<Bytes>) returns (r: Result<()>)
      modifies this`password
      ensures r.Ok? <==> Accepts(digests, old(password), clientPassword)
      ensures r.Throws? ==> r.exception == IllegalStateException && password == old(password)
      ensures clientPassword.None? ==> password == old(password)
      ensures clientPassword.Some? && old(password) == Some(digests.sha1(clientPassword.value)) ==>
        password == Some(digests.sha2(clientPassword.value))
      ensures clientPassword.Some? && old(password) != Some(digests.sha1(clientPassword.value)) ==>
        password == old(password)
      ensures r.Ok? && clientPassword.Some? ==> password == Some(digests.sha2(clientPassword.value))
    {
      if clientPassword.None? {
        if password.Some? {
          return Throws(IllegalStateException);
        }
        return Ok(());
      }
      var copy := clientPassword.value;
      if Some(digests.sha1(copy)) == password {
        password := Some(digests.sha2(copy));
        return Ok(());
      }
      if Some(digests.sha2(copy)) == password {
        return Ok(());
      }
      r := Throws(IllegalStateException);
    }

    /** changePassword: a null new password throws NullPointerException and an
        empty one IllegalArgumentException, both before the old one is checked;
        then the old password must sign in, and the new one is stored as its
        SHA-2 digest. */
    method ChangePassword(oldClientPassword: Option<Bytes>, newClientPassword: Option<Bytes>) returns (r: Result<()>)
      modifies this`password
      ensures newClientPassword.None? ==> r == Throws(NullPointerException) && password == old(password)
      ensures newClientPassword == Some([]) ==> r == Throws(IllegalArgumentException) && password == old(password)
      ensures newClientPassword.Some? && newClientPassword.value != [] ==>
        (r.Ok? <==> Accepts(digests, old(password), oldClientPassword))
      ensures newClientPassword.Some? && newClientPassword.value != [] && r.Throws? ==>
        r.exception == IllegalStateException && password == old(password)
      ensures r.Ok? ==> password == Some(digests.sha2(newClientPassword.value))
    {
      if newClientPassword.None? {
        return Throws(NullPointerException);
      }
      if |newClientPassword.value| == 0 {
        return Throws(IllegalArgumentException);
      }
      r := SignIn(oldClientPassword);
      if r.Throws? {
        return;
      }
      password := Some(digests.sha2(newClientPassword.value));
    }
  }

  /** Signing in twice with the same password: once the first succeeds, the
      second succeeds too and changes nothing; the hash is then in SHA-2 form. */
  method SignInTwice(staff: Staff, clientPassword: Bytes) returns (first: Result<()>, second: Result<()>)
    modifies staff
    ensures first.Ok? ==> second.Ok? && staff.password == Some(staff.digests.sha2(clientPassword))
    ensures first.Throws? ==> second.Throws? && staff.password == old(staff.password)
  {
    first := staff.SignIn(Some(clientPassword));
    second := staff.SignIn(Some(clientPassword));
  }

  /** After a successful change the new password signs in and the old one no
      longer does, provided the two passwords' digests differ. */
  method ChangeThenSignIn(staff: Staff, oldPassword: Bytes, newPassword: Bytes)
    returns (changed: Result<()>, withNew: Result<()>, withOld: Result<()>)
    requires staff.digests.sha1(oldPassword) != staff.digests.sha2(newPassword)
    requires staff.digests.sha2(oldPassword) != staff.digests.sha2(newPassword)
    modifies staff
    ensures changed.Ok? ==> withNew.Ok? && withOld.Throws?
  {
    changed := staff.ChangePassword(Some(oldPassword), Some(newPassword));
    withNew := staff.SignIn(Some(newPassword));
    withOld := staff.SignIn(Some(oldPassword));
  }
}
