/** The announcement resource handler: an authorization check against a
    teacher directory, and list, create, update and delete over a table of
    announcements keyed by string id. The evaluation time of a list is a
    parameter; the store's choice of new ids is a nondeterministic choice
    of an id never issued before. */
module Announcements {
  import opened LexOrder

  datatype Option<T> = None | Some(value: T)

  /** A stored announcement. `start` is `None` when the caller gave none. */
  datatype Announcement = Announcement(message: string, expiration: string, start: Option<string>)

  /** An announcement as returned to callers: its fields plus its id. */
  datatype Record = Record(id: string, message: string, expiration: string, start: Option<string>)

  /** The reply of a successful delete. */
  datatype Deletion = Deletion(id: string, deleted: bool)

  /** The three failure kinds, each with the detail text the caller sees. */
  datatype Error = Unauthenticated(detail: string) | InvalidInput(detail: string) | NotFound(detail: string)
  {
    /** The HTTP status the failure is reported with. */
    function Status(): (code: int)
    {
      match this
      case Unauthenticated(_) => 401
      case InvalidInput(_) => 400
      case NotFound(_) => 404
    }
  }

  datatype Result<T> = Ok(value: T) | Err(error: Error)

  const AuthenticationRequired := Unauthenticated("Authentication required")
  const InvalidCredentials := Unauthenticated("Invalid credentials")
  const MessageAndExpirationRequired := InvalidInput("Message and expiration required")
  const NoFieldsToUpdate := InvalidInput("No fields to update")
  const AnnouncementNotFound := NotFound("Announcement not found")

  /** The credential check: an absent or empty username is refused first,
      then a username with no teacher entry; otherwise the teacher (its
      username) is returned. */
  function RequireAuth(username: Option<string>, teachers: set<string>): (r: Result<string>)
    ensures r.Ok? <==> username.Some? && username.value != "" && username.value in teachers
    ensures r.Ok? ==> r.value == username.value
    ensures r == Err(AuthenticationRequired) <==> username.None? || username.value == ""
    ensures r == Err(InvalidCredentials) <==>
              username.Some? && username.value != "" && username.value !in teachers
  {
    if username.None? || username.value == "" then Err(AuthenticationRequired)
    else if username.value !in teachers then Err(InvalidCredentials)
    else Ok(username.value)
  }

  /** An announcement is current when its expiration sorts strictly after `now`. */
  predicate IsCurrent(a: Announcement, now: string)
  {
    Less(now, a.expiration)
  }

  /** The strict comparison excludes an announcement expiring exactly "now". */
  lemma ExpiringNowIsNotCurrent(a: Announcement, now: string)
    requires a.expiration == now
    ensures !IsCurrent(a, now)
  {
    LessIrreflexive(now);
  }

  function WithId(id: string, a: Announcement): (r: Record)
  {
    Record(id, a.message, a.expiration, a.start)
  }

  /** The fields a partial update may set. */
  datatype Field = MessageField | ExpirationField | StartField

  /** A partial update: the fields to overwrite and their new values. */
  type Patch = map<Field, string>

  /** Builds the partial update from the optional inputs, one conditional
      step per field: a supplied field is included even when it is empty,
      an absent one is left out. */
  method BuildPatch(message: Option<string>, expiration: Option<string>, start: Option<string>)
    returns (patch: Patch)
    ensures MessageField in patch <==> message.Some?
    ensures ExpirationField in patch <==> expiration.Some?
    ensures StartField in patch <==> start.Some?
    ensures message.Some? ==> patch[MessageField] == message.value
    ensures expiration.Some? ==> patch[ExpirationField] == expiration.value
    ensures start.Some? ==> patch[StartField] == start.value
    ensures patch == map[] <==> message.None? && expiration.None? && start.None?
  {
    patch := map[];
    if message.Some? {
      patch := patch[MessageField := message.value];
    }
    if expiration.Some? {
      patch := patch[ExpirationField := expiration.value];
    }
    if start.Some? {
      patch := patch[StartField := start.value];
    }
  }

  /** Applies a partial update to one announcement, as a field-wise `$set`. */
  function ApplyPatch(a: Announcement, patch: Patch): (r: Announcement)
  {
    Announcement(
      if MessageField in patch then patch[MessageField] else a.message,
      if ExpirationField in patch then patch[ExpirationField] else a.expiration,
      if StartField in patch then Some(patch[StartField]) else a.start)
  }

  /** Returns a string longer than every string in `s`. */
  lemma {:induction false} LongerThanAll(s: set<string>) returns (n: nat)
    ensures forall x :: x in s ==> |x| < n
    decreases s
  {
    if s == {} {
      n := 0;
    } else {
      var x :| x in s;
      var m := LongerThanAll(s - {x});
      n := if |x| + 1 > m then |x| + 1 else m;
    }
  }

  /** The store can always assign a non-empty id it has not issued before. */
  lemma FreshIdExists(issued: set<string>)
    ensures exists id: string :: id != "" && id !in issued
  {
    var n := LongerThanAll(issued);
    var id: string := seq(n + 1, _ => 'x');
    assert id != "" && id !in issued;
  }

  /** The handler together with the state it works on: the announcement
      table, the ids the store has issued so far, and the teacher directory,
      which the handler only reads. */
  class AnnouncementService {
    var table: map<string, Announcement>
    var issued: set<string>
    const teachers: set<string>

    /** Every stored announcement carries an id the store issued. */
    ghost predicate Valid()
      reads this
    {
      table.Keys <= issued
    }

    constructor (initial: map<string, Announcement>, teachers: set<string>)
      ensures Valid()
      ensures table == initial && issued == initial.Keys && this.teachers == teachers
    {
      table := initial;
      issued := initial.Keys;
      this.teachers := teachers;
    }

    /** Lists the current announcements, each exactly once, with its key in
        the `id` field. No authorization is needed and nothing changes. */
    method GetAnnouncements(now: string) returns (anns: seq<Record>)
      ensures forall r :: r in anns <==>
                r.id in table && IsCurrent(table[r.id], now) && r == WithId(r.id, table[r.id])
      ensures forall i, j :: 0 <= i < j < |anns| ==> anns[i].id != anns[j].id
    {
      anns := [];
      var pending := table.Keys;
      while pending != {}
        invariant pending <= table.Keys
        invariant forall r :: r in anns <==>
                    r.id in table && r.id !in pending && IsCurrent(table[r.id], now) && r == WithId(r.id, table[r.id])
        invariant forall i :: 0 <= i < |anns| ==> anns[i].id !in pending
        invariant forall i, j :: 0 <= i < j < |anns| ==> anns[i].id != anns[j].id
        decreases pending
      {
        var k :| k in pending;
        if IsCurrent(table[k], now) {
          anns := anns + [WithId(k, table[k])];
        }
        pending := pending - {k};
      }
    }

    /** Creates an announcement. Authorization is checked first, then that
        message and expiration are non-empty; on success exactly one entry
        is added, under a fresh id, and the created record is returned. */
    method CreateAnnouncement(message: string, expiration: string, start: Option<string>, username: Option<string>)
      returns (r: Result<Record>)
      requires Valid()
      modifies this`table, this`issued
      ensures Valid()
      ensures RequireAuth(username, teachers).Err? ==>
                r == Err(RequireAuth(username, teachers).error) &&
                table == old(table) && issued == old(issued)
      ensures RequireAuth(username, teachers).Ok? && (message == "" || expiration == "") ==>
                r == Err(MessageAndExpirationRequired) &&
                table == old(table) && issued == old(issued)
      ensures RequireAuth(username, teachers).Ok? && message != "" && expiration != "" ==>
                && r.Ok?
                && r.value.id != ""
                && r.value.id !in old(issued)
                && r.value.id !in old(table)
                && issued == old(issued) + {r.value.id}
                && table == old(table)[r.value.id := Announcement(message, expiration, start)]
                && r.value == Record(r.value.id, message, expiration, start)
    {
      var auth := RequireAuth(username, teachers);
      if auth.Err? {
        return Err(auth.error);
      }
      if message == "" || expiration == "" {
        return Err(MessageAndExpirationRequired);
      }
      var ann := Announcement(message, expiration, start);
      FreshIdExists(issued);
      var id: string :| id != "" && id !in issued;
      table := table[id := ann];
      issued := issued + {id};
      r := Ok(WithId(id, ann));
    }

    /** Updates the supplied fields of one announcement. Authorization is
        checked first; then an update with no fields is refused before any
        lookup; then an unknown id is reported. On success only the
        supplied fields of that one entry change, and the updated record is
        returned. */
    method UpdateAnnouncement(announcementId: string, message: Option<string>, expiration: Option<string>,
                              start: Option<string>, username: Option<string>)
      returns (r: Result<Record>)
      requires Valid()
      modifies this`table
      ensures Valid()
      ensures RequireAuth(username, teachers).Err? ==>
                r == Err(RequireAuth(username, teachers).error) && table == old(table)
      ensures RequireAuth(username, teachers).Ok? && message.None? && expiration.None? && start.None? ==>
                r == Err(NoFieldsToUpdate) && table == old(table)
      ensures RequireAuth(username, teachers).Ok? && (message.Some? || expiration.Some? || start.Some?) &&
              announcementId !in old(table) ==>
                r == Err(AnnouncementNotFound) && table == old(table)
      ensures RequireAuth(username, teachers).Ok? && (message.Some? || expiration.Some? || start.Some?) &&
              announcementId in old(table) ==>
                var was := old(table)[announcementId];
                var updated := Announcement(
                  if message.Some? then message.value else was.message,
                  if expiration.Some? then expiration.value else was.expiration,
                  if start.Some? then start else was.start);
                && table == old(table)[announcementId := updated]
                && r == Ok(WithId(announcementId, updated))
    {
      var auth := RequireAuth(username, teachers);
      if auth.Err? {
        return Err(auth.error);
      }
      var patch := BuildPatch(message, expiration, start);
      if patch == map[] {
        return Err(NoFieldsToUpdate);
      }
      if announcementId !in table {
        return Err(AnnouncementNotFound);
      }
      table := table[announcementId := ApplyPatch(table[announcementId], patch)];
      r := Ok(WithId(announcementId, table[announcementId]));
    }

    /** Deletes one announcement. Authorization is checked first; an unknown
        id is reported; on success exactly that key is removed. */
    method DeleteAnnouncement(announcementId: string, username: Option<string>) returns (r: Result<Deletion>)
      requires Valid()
      modifies this`table
      ensures Valid()
      ensures RequireAuth(username, teachers).Err? ==>
                r == Err(RequireAuth(username, teachers).error) && table == old(table)
      ensures RequireAuth(username, teachers).Ok? && announcementId !in old(table) ==>
                r == Err(AnnouncementNotFound) && table == old(table)
      ensures RequireAuth(username, teachers).Ok? && announcementId in old(table) ==>
                r == Ok(Deletion(announcementId, true)) && table == old(table) - {announcementId}
    {
      var auth := RequireAuth(username, teachers);
      if auth.Err? {
        return Err(auth.error);
      }
      if announcementId !in table {
        return Err(AnnouncementNotFound);
      }
      table := table - {announcementId};
      r := Ok(Deletion(announcementId, true));
    }
  }

  /** A successful create of an announcement that expires after `now`,
      followed by a list at `now`, lists the created record, and no other
      listed record carries its id. */
  method CreateThenList(service: AnnouncementService, message: string, expiration: string,
                        start: Option<string>, username: Option<string>, now: string)
    returns (created: Result<Record>, listed: seq<Record>)
    requires service.Valid()
    modifies service
    ensures service.Valid()
    ensures created.Ok? ==> created.value.message == message && created.value.expiration == expiration &&
                            created.value.start == start && created.value.id !in old(service.issued)
    ensures created.Ok? ==> created.value.id != ""
    ensures forall i, j :: 0 <= i < j < |listed| ==> listed[i].id != listed[j].id
    ensures created.Ok? && Less(now, expiration) ==>
              created.value in listed &&
              forall r :: r in listed && r.id == created.value.id ==> r == created.value
    ensures created.Ok? && !Less(now, expiration) ==> forall r :: r in listed ==> r.id != created.value.id
  {
    created := service.CreateAnnouncement(message, expiration, start, username);
    listed := service.GetAnnouncements(now);
  }

  /** Deleting the same id twice: when the first delete succeeds, the
      second reports that the announcement is not found. */
  method DeleteTwice(service: AnnouncementService, announcementId: string, username: Option<string>)
    returns (first: Result<Deletion>, second: Result<Deletion>)
    requires service.Valid()
    modifies service
    ensures service.Valid()
    ensures first.Ok? ==> first.value == Deletion(announcementId, true) && second == Err(AnnouncementNotFound)
    ensures RequireAuth(username, service.teachers).Ok? && announcementId in old(service.table) ==> first.Ok?
    ensures RequireAuth(username, service.teachers).Err? ==>
              first == second == Err(RequireAuth(username, service.teachers).error) &&
              service.table == old(service.table)
    ensures RequireAuth(username, service.teachers).Ok? ==>
              second == Err(AnnouncementNotFound) && service.table == old(service.table) - {announcementId}
  {
    first := service.DeleteAnnouncement(announcementId, username);
    second := service.DeleteAnnouncement(announcementId, username);
  }
}
