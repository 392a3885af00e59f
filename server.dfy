/**
 * The `serve` command's request path: every request passes the
 * authentication middleware first; an authenticated request for
 * `/open/innerdoor` or `/open/outerdoor` runs that door's handler, any
 * other path goes to the static file server.
 */
module Zvezda {
  import opened Wrappers
  import opened Doors
  import opened Users

  const InnerDoorPath: string := "/open/innerdoor"
  const OuterDoorPath: string := "/open/outerdoor"

  datatype DoorId = InnerDoor | OuterDoor

  /** The exact-path routes of the mux; None falls through to the `/` file server. */
  function Route(path: string): (door: Option<DoorId>)
    ensures door == Some(InnerDoor) <==> path == "/open/innerdoor"
    ensures door == Some(OuterDoor) <==> path == "/open/outerdoor"
    ensures door == None <==> path != "/open/innerdoor" && path != "/open/outerdoor"
  {
    if path == InnerDoorPath then Some(InnerDoor)
    else if path == OuterDoorPath then Some(OuterDoor)
    else None
  }

  /** The parts of an HTTP request the core looks at. */
  datatype Request = Request(path: string, auth: Option<Credentials>)

  datatype Response =
    | Denied(challenge: string)                              // 401 with WWW-Authenticate
    | DoorAnswer(door: DoorId, outcome: Outcome, username: string)
    | StaticFile(path: string, username: string)             // handed to http.FileServer

  /** The status code of a response the core writes itself; None for the file server's. */
  function StatusCode(r: Response): (code: Option<int>)
    ensures code == Some(401) <==> r.Denied?
    ensures r.DoorAnswer? ==> code == Some(Status(r.outcome))
    ensures code == None <==> r.StaticFile?
  {
    match r
    case Denied(_) => Some(401)
    case DoorAnswer(_, o, _) => Some(Status(o))
    case StaticFile(_, _) => None
  }

  /** The server: the user table and the two doors with their cooldown state. */
  class Server {
    const db: UserDb
    const inner: Door
    const outer: Door

    ghost predicate Valid()
      reads this, db, inner, outer
    {
      inner != outer && db.Valid() && inner.Valid() && outer.Valid()
    }

    /** Start-up at time `start`: both doors last opened ten seconds earlier. */
    constructor (db: UserDb, start: int)
      requires db.Valid()
      ensures Valid() && this.db == db
      ensures fresh(inner) && fresh(outer)
      ensures inner.State() == Initial(start) && outer.State() == Initial(start)
    {
      this.db := db;
      inner := new Door(start);
      outer := new Door(start);
    }

    /**
     * One request at time `now`. Nothing but the user table is looked at
     * before authentication succeeds; only the addressed door can change.
     */
    method Serve(req: Request, now: int, matches: Matcher) returns (resp: Response)
      requires Valid()
      modifies db, inner, outer
      ensures Valid()
      ensures resp.Denied? <==> Decide(old(db.users), req.auth, matches).Unauthorized?
      ensures resp.Denied? ==>
                && resp == Denied(Challenge)
                && db.users == old(db.users)
                && unchanged(inner) && unchanged(outer)
      ensures !resp.Denied? ==>
                && resp.username == req.auth.value.username
                && db.users == Touch(old(db.users), resp.username, now)
      ensures !resp.Denied? && Route(req.path) == Some(InnerDoor) ==>
                && resp.DoorAnswer? && resp.door == InnerDoor
                && (inner.State(), resp.outcome) == Step(old(inner.State()), now)
                && unchanged(outer)
      ensures !resp.Denied? && Route(req.path) == Some(OuterDoor) ==>
                && resp.DoorAnswer? && resp.door == OuterDoor
                && (outer.State(), resp.outcome) == Step(old(outer.State()), now)
                && unchanged(inner)
      ensures !resp.Denied? && Route(req.path) == None ==>
                && resp == StaticFile(req.path, resp.username)
                && unchanged(inner) && unchanged(outer)
    {
      var auth := db.Authenticate(req.auth, now, matches);
      if auth.Unauthorized? {
        return Denied(auth.challenge);
      }
      match Route(req.path)
      case Some(InnerDoor) =>
        var o := inner.Trigger(now);
        resp := DoorAnswer(InnerDoor, o, auth.username);
      case Some(OuterDoor) =>
        var o := outer.Trigger(now);
        resp := DoorAnswer(OuterDoor, o, auth.username);
      case None =>
        resp := StaticFile(req.path, auth.username);
    }
  }
}
