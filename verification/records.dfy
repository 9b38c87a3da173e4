/** The documents the pages read and write. Fields the pages read with a
    fallback (`x || default`, `x?.y`) are optional; ids, timestamps and
    free-text form fields are plain strings. */
module Records {
  import opened Options

  /** A document of the `users` collection. */
  datatype UserDoc = UserDoc(
    id: string,
    firstName: Option<string>,
    lastName: Option<string>,
    email: Option<string>,
    bio: Option<string>,
    role: Option<string>,
    skills: Option<seq<string>>,
    bookmarkedOpportunities: Option<seq<string>>)

  /** A document of the `opportunities` collection. */
  datatype Opportunity = Opportunity(id: string, title: string, company: string, location: string)

  /** A document of `conversations/{conversationId}/messages`. */
  datatype Message = Message(
    id: string,
    senderId: string,
    receiverId: string,
    message: string,
    timestamp: string)

  /** A document of the `guidanceRequests` collection. */
  datatype GuidanceRequest = GuidanceRequest(
    id: string,
    studentId: string,
    studentName: string,
    title: string,
    description: string,
    category: string,
    datePosted: string,
    likes: Option<int>)

  /** A document of `guidanceRequests/{requestId}/replies`. */
  datatype Reply = Reply(
    id: string,
    requestId: string,
    authorId: string,
    authorName: string,
    authorRole: string,
    content: string,
    timestamp: string)

  /** What a page knows about its backend: whether the database handle
      exists, and the uid of the signed-in user, if any. */
  datatype Session = Session(connected: bool, user: Option<string>)

  /** The page holds a reference to the signed-in user's own document
      (`userDocRef` is non-null). */
  predicate HasUserDoc(s: Session) {
    s.connected && s.user.Some?
  }

  /** `userData?.firstName` and friends: a field of a profile that may not
      have loaded. */
  function FirstNameOf(profile: Option<UserDoc>): Option<string> {
    if profile.Some? then profile.value.firstName else None
  }

  function LastNameOf(profile: Option<UserDoc>): Option<string> {
    if profile.Some? then profile.value.lastName else None
  }

  function RoleOf(profile: Option<UserDoc>): Option<string> {
    if profile.Some? then profile.value.role else None
  }
}
