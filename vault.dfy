/**
 * The vault façade `PasswordManager`: choosing the encryption key at start-up,
 * the encrypt/decrypt wrappers, and the operations that pass ciphertexts to and
 * from the password repository. The repository itself is not part of this
 * model: each of its methods is a function-valued parameter whose results are
 * inputs, so no ownership check is assumed of it.
 */
module Vault {
  import opened Common
  import Hex
  import Fernet

  const DecryptionFailedMarker := "[Decryption Failed - Key Mismatch/Corruption]"
  const ProcessingErrorMarker := "[Processing Error]"
  const SaveErrorPrefix := "Error encrypting or saving password: "
  /** What `str(e)` reads for the `AttributeError` raised by `None.encode()`. */
  const NoneEncodeError := "'NoneType' object has no attribute 'encode'"

  /** A constructed `PasswordManager`: the Fernet scheme and text codec it uses, and its key. */
  datatype PasswordManager = PasswordManager(scheme: Fernet.Scheme, text: Fernet.TextCodec, key: Fernet.Key)

  /** The library assumptions under which the vault's promises hold. */
  ghost predicate Ready(pm: PasswordManager) {
    Fernet.RoundTrip(pm.scheme) && Fernet.Lossless(pm.text) && pm.scheme.validKey(pm.key)
  }

  // ---------------------------------------------------------------------------
  // Key selection

  /** The key file `key.key`: whether it exists and what it holds. */
  class KeyFile {
    var present: bool
    var contents: Bytes

    constructor (present: bool, contents: Bytes)
      ensures this.present == present && this.contents == contents
    {
      this.present := present;
      this.contents := contents;
    }
  }

  /** Exceptions that escape the constructor of `PasswordManager`. */
  datatype InitError =
    | KeyWriteFailed  // writing a regenerated key inside the `except` handler failed
    | InvalidKey      // `Fernet(key)` rejected the key read from the file

  /**
   * The constructor of `PasswordManager`. `readFails` says whether reading an
   * existing non-empty key file raises; `generated[i]` is the key that the
   * i-th call to `Fernet.generate_key` returns and `writeSucceeds[i]` whether
   * the i-th write of the key file succeeds. A failed write leaves the file as
   * it was.
   */
  method NewPasswordManager(scheme: Fernet.Scheme, text: Fernet.TextCodec, file: KeyFile,
                            readFails: bool, generated: seq<Fernet.Key>, writeSucceeds: seq<bool>)
    returns (r: Result<PasswordManager, InitError>)
    requires |generated| >= 2 && |writeSucceeds| >= 2
    requires forall i :: 0 <= i < |generated| ==> |generated[i]| > 0 && scheme.validKey(generated[i])
    modifies file
    ensures r.Ok? ==> r.value.scheme == scheme && r.value.text == text && scheme.validKey(r.value.key)
    ensures r.Ok? ==> file.present && file.contents == r.value.key
    ensures r.Err? ==> file.present == old(file.present) && file.contents == old(file.contents)
    ensures var stored := old(file.contents);
      old(file.present) && |stored| > 0 && !readFails ==>
        file.contents == stored &&
        r == if scheme.validKey(stored) then Ok(PasswordManager(scheme, text, stored)) else Err(InvalidKey)
    ensures old(file.present) && |old(file.contents)| > 0 && readFails ==>
      r == if writeSucceeds[0] then Ok(PasswordManager(scheme, text, generated[0])) else Err(KeyWriteFailed)
    ensures !(old(file.present) && |old(file.contents)| > 0) ==>
      r == if writeSucceeds[0] then Ok(PasswordManager(scheme, text, generated[0]))
           else if writeSucceeds[1] then Ok(PasswordManager(scheme, text, generated[1]))
           else Err(KeyWriteFailed)
  {
    var key: Bytes := [];
    var raised := false;
    var draws, writes := 0, 0;
    if file.present && |file.contents| > 0 {
      if readFails {
        raised := true;
      } else {
        key := file.contents;
      }
    }
    if !raised && |key| == 0 {
      key := generated[draws];
      draws := draws + 1;
      if writeSucceeds[writes] {
        file.present, file.contents := true, key;
      } else {
        raised := true;
      }
      writes := writes + 1;
    }
    if raised {
      key := generated[draws];
      draws := draws + 1;
      if !writeSucceeds[writes] {
        return Err(KeyWriteFailed);
      }
      file.present, file.contents := true, key;
      writes := writes + 1;
    }
    if !scheme.validKey(key) {
      return Err(InvalidKey);
    }
    r := Ok(PasswordManager(scheme, text, key));
  }

  // ---------------------------------------------------------------------------
  // Encryption wrappers

  /**
   * `encrypt_password`: UTF-8 encode, then make a Fernet token. Under the
   * library assumptions the token decrypts back to the password.
   */
  function EncryptPassword(pm: PasswordManager, nonce: Bytes, password: string): (token: Bytes)
    ensures Ready(pm) ==> DecryptPassword(pm, token) == Some(password)
  {
    pm.scheme.encrypt(pm.key, nonce, pm.text.encode(password))
  }

  /**
   * `decrypt_password`: None stands for the single `ValueError` it raises,
   * whether the token was rejected or its plaintext was not valid UTF-8.
   */
  function DecryptPassword(pm: PasswordManager, token: Bytes): (r: Option<string>)
    ensures r.Some? ==> pm.scheme.decrypt(pm.key, token).Some?
  {
    match pm.scheme.decrypt(pm.key, token)
    case None => None
    case Some(plain) => pm.text.decode(plain)
  }

  /** A token made under a key with another signing half is rejected, never read as a wrong plaintext. */
  lemma ForeignTokenRejected(pm: PasswordManager, other: Fernet.Key, nonce: Bytes, password: string)
    requires Ready(pm) && Fernet.RejectsForeignKeys(pm.scheme)
    requires pm.scheme.validKey(other) && pm.scheme.signingKey(other) != pm.scheme.signingKey(pm.key)
    ensures DecryptPassword(pm, pm.scheme.encrypt(other, nonce, pm.text.encode(password))) == None
  {
  }

  // ---------------------------------------------------------------------------
  // Repository interface

  /** A `(success, message)` pair. */
  datatype Reply = Reply(ok: bool, message: string)

  /** What a repository method did: returned a reply, or raised with a message. */
  datatype RepoResult = Returned(reply: Reply) | Raised(error: string)

  datatype SaveRequest = SaveRequest(userId: int, website: string, username: string, ciphertext: Bytes)
  datatype UpdateRequest = UpdateRequest(passwordId: int, userId: int, website: string, username: string, ciphertext: Bytes)

  /** The value stored under "encrypted_password" in a listed entry. */
  datatype StoredCiphertext =
    | Text(hex: string)     // a `str`: Base16, possibly behind PostgreSQL's `\x` prefix
    | Binary(token: Bytes)  // a `bytes` token
    | Unsupported           // any other value; the decryptor raises `TypeError` on it

  /** One entry of the repository's listing; `encrypted` is None when the key is missing. */
  datatype StoredEntry = StoredEntry(id: int, website: string, username: string, encrypted: Option<StoredCiphertext>)

  /** What the repository's `list_passwords` did: `(True, entries)`, `(False, data)`, or raised. */
  datatype Listing = ListOk(entries: seq<StoredEntry>) | ListError(data: string) | ListRaised(error: string)

  /** One entry of the result of `get_passwords`. */
  datatype ListedEntry = ListedEntry(id: int, website: string, username: string, password: string)

  /**
   * The result of `get_passwords`: `(True, entries)`, `(False, data)`, or the
   * exception from `list_passwords`, which nothing catches.
   */
  datatype Passwords = Decrypted(entries: seq<ListedEntry>) | NotListed(data: string) | Propagated(error: string)

  // ---------------------------------------------------------------------------
  // Listing

  /** Removes the two-character `\x` prefix that PostgreSQL puts before Base16 `bytea` text. */
  function StripHexPrefix(s: string): (r: string)
    ensures "\\x" <= s ==> "\\x" + r == s
    ensures !("\\x" <= s) ==> r == s
  {
    if |s| >= 2 && s[..2] == "\\x" then s[2..] else s
  }

  /** The plaintext of a token, or the marker that the `ValueError` handler writes. */
  function Reveal(pm: PasswordManager, token: Bytes): string {
    match DecryptPassword(pm, token)
    case Some(password) => password
    case None => DecryptionFailedMarker
  }

  /**
   * The token a stored value hands to the decryptor: Base16 text is decoded
   * after the prefix is removed, `bytes` pass through unchanged, and any other
   * value has none (the decryptor raises on it).
   */
  function TokenOf(c: StoredCiphertext): Option<Bytes> {
    match c
    case Text(s) => Hex.Unhexlify(StripHexPrefix(s))
    case Binary(token) => Some(token)
    case Unsupported => None
  }

  /** The "password" field that one iteration of the `get_passwords` loop produces. */
  function EntryPassword(pm: PasswordManager, encrypted: Option<StoredCiphertext>): string {
    match encrypted
    case None => ProcessingErrorMarker
    case Some(c) =>
      match TokenOf(c)
      case None => DecryptionFailedMarker
      case Some(token) => Reveal(pm, token)
  }

  /** One iteration of the `get_passwords` loop, with both exception handlers. */
  function DecryptEntry(pm: PasswordManager, e: StoredEntry): (r: ListedEntry)
    ensures r.id == e.id && r.website == e.website && r.username == e.username
    ensures e.encrypted.None? ==> r.password == ProcessingErrorMarker
    ensures e.encrypted.Some? && TokenOf(e.encrypted.value).Some? ==>
      var plain := DecryptPassword(pm, TokenOf(e.encrypted.value).value);
      r.password == if plain.Some? then plain.value else DecryptionFailedMarker
    ensures e.encrypted.Some? && TokenOf(e.encrypted.value).None? ==> r.password == DecryptionFailedMarker
  {
    ListedEntry(e.id, e.website, e.username, EntryPassword(pm, e.encrypted))
  }

  /** The list that `get_passwords` builds from the repository's entries. */
  function DecryptAll(pm: PasswordManager, entries: seq<StoredEntry>): (r: seq<ListedEntry>)
    ensures |r| == |entries|
  {
    if entries == [] then []
    else DecryptAll(pm, entries[..|entries| - 1]) + [DecryptEntry(pm, entries[|entries| - 1])]
  }

  /** `get_passwords`: list the owner's entries, then decrypt each one on its own. */
  method GetPasswords(pm: PasswordManager, userId: int, listPasswords: int -> Listing) returns (r: Passwords)
    ensures listPasswords(userId).ListError? ==> r == NotListed(listPasswords(userId).data)
    ensures listPasswords(userId).ListRaised? ==> r == Propagated(listPasswords(userId).error)
    ensures listPasswords(userId).ListOk? ==> r == Decrypted(DecryptAll(pm, listPasswords(userId).entries))
  {
    var listing := listPasswords(userId);
    if listing.ListRaised? {
      return Propagated(listing.error);
    }
    if listing.ListError? {
      return NotListed(listing.data);
    }
    var entries := listing.entries;
    var decrypted: seq<ListedEntry> := [];
    var i := 0;
    while i < |entries|
      invariant 0 <= i <= |entries|
      invariant decrypted == DecryptAll(pm, entries[..i])
    {
      decrypted := decrypted + [DecryptEntry(pm, entries[i])];
      i := i + 1;
      assert entries[..i][..i - 1] == entries[..i - 1];
    }
    assert entries[..i] == entries;
    return Decrypted(decrypted);
  }

  /** The i-th listed entry is made from the i-th stored entry alone. */
  lemma {:induction false} DecryptAllAt(pm: PasswordManager, entries: seq<StoredEntry>, i: nat)
    requires i < |entries|
    ensures DecryptAll(pm, entries)[i] == DecryptEntry(pm, entries[i])
  {
    var n := |entries| - 1;
    if i < n {
      DecryptAllAt(pm, entries[..n], i);
    }
  }

  /**
   * Failure isolation: two listings that agree on the i-th entry agree on the
   * i-th result, however the other entries are corrupted.
   */
  lemma {:induction false} EntriesDecryptIndependently(pm: PasswordManager, a: seq<StoredEntry>, b: seq<StoredEntry>, i: nat)
    requires i < |a| && i < |b| && a[i] == b[i]
    ensures DecryptAll(pm, a)[i] == DecryptAll(pm, b)[i]
  {
    DecryptAllAt(pm, a, i);
    DecryptAllAt(pm, b, i);
  }

  /** A `bytes` token and its Base16 text, with or without the `\x` prefix, decrypt alike. */
  lemma HexFormsAgree(pm: PasswordManager, token: Bytes)
    ensures EntryPassword(pm, Some(Text(Hex.Hexlify(token)))) == Reveal(pm, token)
    ensures EntryPassword(pm, Some(Text("\\x" + Hex.Hexlify(token)))) == Reveal(pm, token)
  {
    var h := Hex.Hexlify(token);
    Hex.UnhexlifyHexlify(token);
    assert ("\\x" + h)[..2] == "\\x" && ("\\x" + h)[2..] == h;
    if |h| >= 2 {
      assert Hex.IsDigit(h[0]);
    }
  }

  /**
   * Text that is not Base16 after the prefix (odd length, or a character that
   * is not a hexadecimal digit) is marked, never passed to the decryptor.
   */
  lemma MalformedTextMarked(pm: PasswordManager, s: string, i: nat)
    requires var h := StripHexPrefix(s); |h| % 2 == 1 || (i < |h| && !Hex.IsDigit(h[i]))
    ensures EntryPassword(pm, Some(Text(s))) == DecryptionFailedMarker
  {
    Hex.UnhexlifySucceedsIff(StripHexPrefix(s));
  }

  /** An entry stored under a key whose signing half is not the manager's lists with the failure marker. */
  lemma OrphanedEntryMarked(pm: PasswordManager, other: Fernet.Key, nonce: Bytes, password: string, e: StoredEntry)
    requires Ready(pm) && Fernet.RejectsForeignKeys(pm.scheme)
    requires pm.scheme.validKey(other) && pm.scheme.signingKey(other) != pm.scheme.signingKey(pm.key)
    requires e.encrypted == Some(Binary(pm.scheme.encrypt(other, nonce, pm.text.encode(password))))
    ensures DecryptEntry(pm, e).password == DecryptionFailedMarker
  {

  }

  /**
   * Partial-failure resilience: when every entry but the k-th holds a token the
   * manager made for `passwords[j]`, and the k-th is rejected by the decryptor,
   * the listing keeps every entry, reads back every other password and marks
   * only the k-th.
   */
  lemma OneCorruptEntry(pm: PasswordManager, entries: seq<StoredEntry>, nonces: seq<Bytes>,
                        passwords: seq<string>, k: nat)
    requires Ready(pm) && k < |entries| && |nonces| == |entries| && |passwords| == |entries|
    requires forall j :: 0 <= j < |entries| && j != k ==>
      entries[j].encrypted == Some(Binary(EncryptPassword(pm, nonces[j], passwords[j])))
    requires entries[k].encrypted.Some? && entries[k].encrypted.value.Binary?
    requires DecryptPassword(pm, entries[k].encrypted.value.token).None?
    ensures |DecryptAll(pm, entries)| == |entries|
    ensures forall j :: 0 <= j < |entries| && j != k ==> DecryptAll(pm, entries)[j].password == passwords[j]
    ensures DecryptAll(pm, entries)[k].password == DecryptionFailedMarker
  {
    forall j | 0 <= j < |entries|
      ensures DecryptAll(pm, entries)[j] == DecryptEntry(pm, entries[j])
    {
      DecryptAllAt(pm, entries, j);
    }
    forall j | 0 <= j < |entries| && j != k
      ensures DecryptAll(pm, entries)[j].password == passwords[j]
    {
      assert DecryptPassword(pm, EncryptPassword(pm, nonces[j], passwords[j])) == Some(passwords[j]);
    }
  }

  // ---------------------------------------------------------------------------
  // Storing and updating

  /** What `add_password` hands to `save_password`. */
  function SaveRequestFor(pm: PasswordManager, userId: int, website: string, username: string,
                          password: string, nonce: Bytes): SaveRequest {
    SaveRequest(userId, website, username, EncryptPassword(pm, nonce, password))
  }

  /** What `update_password` hands to the repository's `update_password`. */
  function UpdateRequestFor(pm: PasswordManager, passwordId: int, userId: int, website: string, username: string,
                            password: string, nonce: Bytes): UpdateRequest {
    UpdateRequest(passwordId, userId, website, username, EncryptPassword(pm, nonce, password))
  }

  /**
   * `add_password`: encrypt, then save. It never raises: a missing password or
   * an exception from the repository becomes `(False, "Error ...: <e>")`, and
   * whatever the repository replies is returned as it is.
   */
  function AddPassword(pm: PasswordManager, userId: int, website: string, username: string,
                       rawPassword: Option<string>, nonce: Bytes, save: SaveRequest -> RepoResult): (r: Reply)
    ensures rawPassword.None? ==> r == Reply(false, SaveErrorPrefix + NoneEncodeError)
    ensures rawPassword.Some? ==>
      var c := save(SaveRequestFor(pm, userId, website, username, rawPassword.value, nonce));
      (c.Raised? ==> r == Reply(false, SaveErrorPrefix + c.error)) && (c.Returned? ==> r == c.reply)
    ensures r.ok ==> rawPassword.Some?
  {
    match rawPassword
    case None => Reply(false, SaveErrorPrefix + NoneEncodeError)
    case Some(password) =>
      match save(SaveRequestFor(pm, userId, website, username, password, nonce))
      case Returned(reply) => reply
      case Raised(e) => Reply(false, SaveErrorPrefix + e)
  }

  /**
   * `update_password`: encrypt, then update. The same failure handling as
   * `add_password`; `rawPassword` defaults to None in the source.
   */
  function UpdatePassword(pm: PasswordManager, passwordId: int, userId: int, website: string, username: string,
                          rawPassword: Option<string>, nonce: Bytes, update: UpdateRequest -> RepoResult): (r: Reply)
    ensures rawPassword.None? ==> r == Reply(false, SaveErrorPrefix + NoneEncodeError)
    ensures rawPassword.Some? ==>
      var c := update(UpdateRequestFor(pm, passwordId, userId, website, username, rawPassword.value, nonce));
      (c.Raised? ==> r == Reply(false, SaveErrorPrefix + c.error)) && (c.Returned? ==> r == c.reply)
    ensures r.ok ==> rawPassword.Some?
  {
    match rawPassword
    case None => Reply(false, SaveErrorPrefix + NoneEncodeError)
    case Some(password) =>
      match update(UpdateRequestFor(pm, passwordId, userId, website, username, password, nonce))
      case Returned(reply) => reply
      case Raised(e) => Reply(false, SaveErrorPrefix + e)
  }

  /**
   * What `add_password` hands to the repository comes back from `get_passwords`
   * as the original password, whether the repository returns the token as
   * `bytes` or as Base16 text with PostgreSQL's `\x` prefix.
   */
  lemma SavedPasswordIsListed(pm: PasswordManager, userId: int, website: string, username: string,
                              password: string, nonce: Bytes, id: int)
    requires Ready(pm)
    ensures var request := SaveRequestFor(pm, userId, website, username, password, nonce);
      DecryptEntry(pm, StoredEntry(id, request.website, request.username, Some(Binary(request.ciphertext))))
        == ListedEntry(id, website, username, password) &&
      DecryptEntry(pm, StoredEntry(id, request.website, request.username, Some(Text("\\x" + Hex.Hexlify(request.ciphertext)))))
        == ListedEntry(id, website, username, password)
  {
    HexFormsAgree(pm, EncryptPassword(pm, nonce, password));
  }

  /**
   * What `update_password` hands to the repository, stored under the entry's
   * id, comes back from `get_passwords` as the new password, in either form.
   */
  lemma UpdatedPasswordIsListed(pm: PasswordManager, passwordId: int, userId: int, website: string, username: string,
                                password: string, nonce: Bytes)
    requires Ready(pm)
    ensures var request := UpdateRequestFor(pm, passwordId, userId, website, username, password, nonce);
      DecryptEntry(pm, StoredEntry(request.passwordId, request.website, request.username, Some(Binary(request.ciphertext))))
        == ListedEntry(passwordId, website, username, password) &&
      DecryptEntry(pm, StoredEntry(request.passwordId, request.website, request.username,
                                   Some(Text("\\x" + Hex.Hexlify(request.ciphertext)))))
        == ListedEntry(passwordId, website, username, password)
  {
    HexFormsAgree(pm, EncryptPassword(pm, nonce, password));
  }
}
