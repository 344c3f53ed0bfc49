/** The boundary's translation of domain error codes into InvariantErrors with
    a user-facing (Indonesian) message. */
module DomainErrorTranslator {
  import opened Wrappers
  import opened Errors
  import DetailComments
  import DetailReplies
  import DetailThreads

  /** One property of the `_directories` object: an error code and the message
      of the InvariantError it is translated into. */
  datatype Entry = Entry(code: string, message: string)

  /** The `_directories` object, property by property in source order. */
  const Directories: seq<Entry> := [
    Entry("REGISTER_USER.NOT_CONTAIN_NEEDED_PROPERTY",
          "tidak dapat membuat user baru karena properti yang dibutuhkan tidak ada"),
    Entry("REGISTER_USER.NOT_MEET_DATA_TYPE_SPECIFICATION",
          "tidak dapat membuat user baru karena tipe data tidak sesuai"),
    Entry("REGISTER_USER.USERNAME_LIMIT_CHAR",
          "tidak dapat membuat user baru karena karakter username melebihi batas limit"),
    Entry("REGISTER_USER.USERNAME_CONTAIN_RESTRICTED_CHARACTER",
          "tidak dapat membuat user baru karena username mengandung karakter terlarang"),
    Entry("USER_LOGIN.NOT_CONTAIN_NEEDED_PROPERTY",
          "harus mengirimkan username dan password"),
    Entry("USER_LOGIN.NOT_MEET_DATA_TYPE_SPECIFICATION",
          "username dan password harus string"),
    Entry("REFRESH_AUTHENTICATION_USE_CASE.NOT_CONTAIN_REFRESH_TOKEN",
          "harus mengirimkan token refresh"),
    Entry("REFRESH_AUTHENTICATION_USE_CASE.PAYLOAD_NOT_MEET_DATA_TYPE_SPECIFICATION",
          "refresh token harus string"),
    Entry("DELETE_AUTHENTICATION_USE_CASE.NOT_CONTAIN_REFRESH_TOKEN",
          "harus mengirimkan token refresh"),
    Entry("DELETE_AUTHENTICATION_USE_CASE.PAYLOAD_NOT_MEET_DATA_TYPE_SPECIFICATION",
          "refresh token harus string"),
    Entry("NEW_THREAD.NOT_CONTAIN_NEEDED_PROPERTY",
          "tidak dapat membuat thread baru karena properti yang dibutuhkan tidak ada"),
    Entry("NEW_THREAD.NOT_MEET_DATA_TYPE_SPECIFICATION",
          "tidak dapat membuat thread baru karena tipe data tidak sesuai"),
    Entry("GET_THREAD_USE_CASE.NOT_CONTAIN_NEEDED_PROPERTY",
          "tidak dapat menampilkan thread karena properti yang dibutuhkan tidak ada"),
    Entry("GET_THREAD_USE_CASE.PAYLOAD_NOT_MEET_DATA_TYPE_SPECIFICATION",
          "tidak dapat menampilkan thread karena tipe data tidak sesuai"),
    Entry("NEW_COMMENT.NOT_CONTAIN_NEEDED_PROPERTY",
          "tidak dapat membuat komentar baru karena properti yang dibutuhkan tidak ada"),
    Entry("NEW_COMMENT.NOT_MEET_DATA_TYPE_SPECIFICATION",
          "tidak dapat membuat komentar baru karena tipe data tidak sesuai"),
    Entry("DELETE_COMMENT_USE_CASE.NOT_CONTAIN_NEEDED_PROPERTY",
          "tidak dapat menghapus komentar karena properti yang dibutuhkan tidak ada"),
    Entry("DELETE_COMMENT_USE_CASE.PAYLOAD_NOT_MEET_DATA_TYPE_SPECIFICATION",
          "tidak dapat menghapus komentar karena tipe data tidak sesuai"),
    Entry("NEW_REPLY.NOT_CONTAIN_NEEDED_PROPERTY",
          "tidak dapat membuat balasan baru karena properti yang dibutuhkan tidak ada"),
    Entry("NEW_REPLY.NOT_MEET_DATA_TYPE_SPECIFICATION",
          "tidak dapat membuat balasan baru karena tipe data tidak sesuai"),
    Entry("DELETE_REPLY_USE_CASE.NOT_CONTAIN_NEEDED_PROPERTY",
          "tidak dapat menghapus balasan karena properti yang dibutuhkan tidak ada"),
    Entry("DELETE_REPLY_USE_CASE.PAYLOAD_NOT_MEET_DATA_TYPE_SPECIFICATION",
          "tidak dapat menghapus balasan karena tipe data tidak sesuai"),
    Entry("LIKE_COMMENT_USE_CASE.NOT_CONTAIN_NEEDED_PROPERTY",
          "tidak dapat memberikan like pada komentar karena properti yang dibutuhkan tidak ada"),
    Entry("LIKE_COMMENT_USE_CASE.PAYLOAD_NOT_MEET_DATA_TYPE_SPECIFICATION",
          "tidak dapat memberikan like pada komentar karena tipe data tidak sesuai")
  ]

  /** Property lookup on the directory: the message stored under `code`, if
      `code` is one of its keys. */
  function Find(entries: seq<Entry>, code: string): (r: Option<string>)
    ensures r.Some? ==> exists i | 0 <= i < |entries| :: entries[i] == Entry(code, r.value)
    ensures r.None? <==> forall i | 0 <= i < |entries| :: entries[i].code != code
  {
    if entries == [] then None
    else if entries[0].code == code then Some(entries[0].message)
    else Find(entries[1..], code)
  }

  /** A key found at position `i`, and at no earlier position, yields the
      message stored at `i`. */
  lemma {:induction false} FindFirst(entries: seq<Entry>, code: string, i: nat)
    requires i < |entries| && entries[i].code == code
    requires forall j | 0 <= j < i :: entries[j].code != code
    ensures Find(entries, code) == Some(entries[i].message)
  {
    if i > 0 {
      FindFirst(entries[1..], code, i - 1);
    }
  }

  /** `_directories[error.message] || error`: a mapped InvariantError object is
      always truthy, so a hit wins and a miss returns the error itself. The
      model has no prototype chain: inherited property names are misses. */
  function Translate(e: Error): (r: Error)
    ensures r == e || r.Invariant?
    ensures r != e ==> exists i | 0 <= i < |Directories| :: Directories[i] == Entry(e.message, r.message)
    ensures (forall i | 0 <= i < |Directories| :: Directories[i].code != e.message) ==> r == e
    ensures Find(Directories, e.message).Some? ==> r == Invariant(Find(Directories, e.message).value)
  {
    match Find(Directories, e.message)
    case Some(message) => Invariant(message)
    case None => e
  }

  /** An error whose message is a key becomes the InvariantError mapped to
      the first property with that key. */
  lemma TranslateMapped(e: Error, i: nat)
    requires i < |Directories| && Directories[i].code == e.message
    requires forall j | 0 <= j < i :: Directories[j].code != e.message
    ensures Translate(e) == Invariant(Directories[i].message)
  {
    FindFirst(Directories, e.message, i);
  }

  // The facts about the whole 24-property table below are each split by
  // ranges of the first index: stated over all pairs at once, one proof
  // obligation compares every pair of string literals and comes close to
  // the solver's resource budget.

  /** No mapped message among properties 0 to 5 is itself a key. */
  lemma MessagesAreNotCodes1()
    ensures forall i, j | 0 <= i < 6 && 0 <= j < |Directories| :: Directories[i].message != Directories[j].code
  {
  }

  /** No mapped message among properties 6 to 11 is itself a key. */
  lemma MessagesAreNotCodes2()
    ensures forall i, j | 6 <= i < 12 && 0 <= j < |Directories| :: Directories[i].message != Directories[j].code
  {
  }

  /** No mapped message among properties 12 to 17 is itself a key. */
  lemma MessagesAreNotCodes3()
    ensures forall i, j | 12 <= i < 18 && 0 <= j < |Directories| :: Directories[i].message != Directories[j].code
  {
  }

  /** No mapped message among properties 18 to 23 is itself a key. */
  lemma MessagesAreNotCodes4()
    ensures forall i, j | 18 <= i < |Directories| && 0 <= j < |Directories| :: Directories[i].message != Directories[j].code
  {
  }

  /** No two properties among 0 to 5 and any later one share a key. */
  lemma CodesAreDistinct1()
    ensures forall i, j | 0 <= i < 6 && i < j < |Directories| :: Directories[i].code != Directories[j].code
  {
  }

  /** No two properties among 6 to 11 and any later one share a key. */
  lemma CodesAreDistinct2()
    ensures forall i, j | 6 <= i < 12 && i < j < |Directories| :: Directories[i].code != Directories[j].code
  {
  }

  /** No two properties among 12 to 17 and any later one share a key. */
  lemma CodesAreDistinct3()
    ensures forall i, j | 12 <= i < 18 && i < j < |Directories| :: Directories[i].code != Directories[j].code
  {
  }

  /** No two properties among 18 to 23 and any later one share a key. */
  lemma CodesAreDistinct4()
    ensures forall i, j | 18 <= i < 24 && i < j < |Directories| :: Directories[i].code != Directories[j].code
  {
  }

  /** Every key occurs once, so the first-match lookup agrees with the
      object literal, whose later duplicate would win: an error carrying any
      property's key translates to that property's InvariantError. */
  lemma TranslateAnyOccurrence(e: Error, i: nat)
    requires i < |Directories| && Directories[i].code == e.message
    ensures Translate(e) == Invariant(Directories[i].message)
  {
    CodesAreDistinct1();
    CodesAreDistinct2();
    CodesAreDistinct3();
    CodesAreDistinct4();
    assert forall j | 0 <= j < i :: Directories[j].code != Directories[i].code;
    TranslateMapped(e, i);
  }

  /** Translating twice is translating once: a translated error carries a
      mapped message, which is never a key, so the second lookup misses. */
  lemma TranslateIdempotent(e: Error)
    ensures Translate(Translate(e)) == Translate(e)
  {
    var r := Translate(e);
    if r != e {
      MessagesAreNotCodes1();
      MessagesAreNotCodes2();
      MessagesAreNotCodes3();
      MessagesAreNotCodes4();
      var i :| 0 <= i < |Directories| && Directories[i] == Entry(e.message, r.message);
      assert forall j | 0 <= j < |Directories| :: Directories[j].code != r.message;
    }
  }

  /** The code thrown by NewThread on a missing property reaches the client
      as this InvariantError. */
  lemma NewThreadMissingTranslation()
    ensures Translate(Thrown("NEW_THREAD.NOT_CONTAIN_NEEDED_PROPERTY"))
         == Invariant("tidak dapat membuat thread baru karena properti yang dibutuhkan tidak ada")
  {
    var code := "NEW_THREAD.NOT_CONTAIN_NEEDED_PROPERTY";
    assert Directories[10].code == code;
    assert forall j | 0 <= j < 10 :: Directories[j].code != code;
    FindFirst(Directories, code, 10);
  }

  /** The codes the three detail-view constructors throw. */
  const DetailCodes: seq<string> := [
    DetailComments.MissingProperty, DetailComments.WrongType,
    DetailReplies.MissingProperty, DetailReplies.WrongType,
    DetailThreads.MissingProperty, DetailThreads.WrongType
  ]

  lemma DetailCommentCodesAreNotKeys()
    ensures forall i, j | 0 <= i < 2 && 0 <= j < |Directories| :: DetailCodes[i] != Directories[j].code
  {
  }

  lemma DetailReplyCodesAreNotKeys()
    ensures forall i, j | 2 <= i < 4 && 0 <= j < |Directories| :: DetailCodes[i] != Directories[j].code
  {
  }

  lemma DetailThreadCodesAreNotKeys()
    ensures forall i, j | 4 <= i < 6 && 0 <= j < |Directories| :: DetailCodes[i] != Directories[j].code
  {
  }

  /** The detail-view codes have no directory entry, so an error carrying one
      passes through the translator unchanged. */
  lemma DetailErrorsPassThrough(e: Error)
    requires e.message in DetailCodes
    ensures Translate(e) == e
  {
    DetailCommentCodesAreNotKeys();
    DetailReplyCodesAreNotKeys();
    DetailThreadCodesAreNotKeys();
    var i :| 0 <= i < |DetailCodes| && DetailCodes[i] == e.message;
    assert forall j | 0 <= j < |Directories| :: Directories[j].code != e.message;
  }
}
