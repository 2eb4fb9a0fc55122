/**
 * An in-memory key-value store with the three commands the lock service
 * uses: set-if-absent with expiry, get and delete, plus opening and
 * closing a connection. The store counts every command it receives.
 *
 * Everything that happens to the store between this client's commands
 * (other clients, expiry, a broken network) is given up front as a
 * schedule `env`, keyed by the number of the command it precedes.
 */
module RedisStore {
  import opened LockTypes

  /** What the rest of the world does just before one of this client's commands. */
  datatype Event =
    | Outage                             // the command fails
    | Expired(key: string)               // the entry under `key` expires
    | Acquired(key: string, entry: Entry) // the entry under `key` expires and another client takes the key

  /** The effect of an event on the stored entries. */
  function Apply(m: map<string, Entry>, ev: Event): (r: map<string, Entry>) {
    match ev
    case Outage => m
    case Expired(k) => m - {k}
    case Acquired(k, e) => m[k := e]
  }

  /** Command number `c` fails. */
  predicate IsOutage(env: map<nat, Event>, c: nat) {
    c in env && env[c] == Outage
  }

  /** A reply from the store: a value, or a failure the client sees as an exception. */
  datatype Reply<T> = Ok(value: T) | Failed

  /** The abstract state of the store, as seen by one client. */
  datatype StoreState = StoreState(
    entries: map<string, Entry>,
    env: map<nat, Event>,
    commands: nat,   // commands received so far (connections included)
    sets: nat,       // set-if-absent commands received
    gets: nat,       // get commands received
    dels: nat,       // delete commands received
    open: nat)       // connections currently open
  {
    /** The number the next command carries. */
    function Next(): nat { commands + 1 }

    /** The next command fails. */
    predicate FailsNext() { IsOutage(env, Next()) }

    /** The entries the next command finds, after whatever the world does just before it. */
    function Seen(): map<string, Entry> {
      if Next() in env then Apply(entries, env[Next()]) else entries
    }

    /** The state in which the next command starts. */
    function Advance(): StoreState {
      this.(commands := Next(), entries := Seen())
    }
  }

  /** Opening a connection: true when the store is reachable. */
  function ConnectStep(s: StoreState): (r: (StoreState, bool)) {
    var t := s.Advance();
    if s.FailsNext() then (t, false) else (t.(open := t.open + 1), true)
  }

  /** Closing a connection never fails. */
  function CloseStep(s: StoreState): (t: StoreState)
    requires s.open > 0
  {
    s.(open := s.open - 1)
  }

  /** SET key value EX ttl NX: true when the key was absent and now holds `e`. */
  function SetIfAbsentStep(s: StoreState, key: string, e: Entry): (r: (StoreState, Reply<bool>)) {
    var t := s.Advance().(sets := s.sets + 1);
    if s.FailsNext() then (t, Failed)
    else if key in t.entries then (t, Ok(false))
    else (t.(entries := t.entries[key := e]), Ok(true))
  }

  /** GET key: the holder stored under `key`, if any. */
  function GetStep(s: StoreState, key: string): (r: (StoreState, Reply<Option<string>>)) {
    var t := s.Advance().(gets := s.gets + 1);
    if s.FailsNext() then (t, Failed)
    else (t, Ok(if key in t.entries then Some(t.entries[key].owner) else None))
  }

  /** DEL key: the number of keys removed. */
  function DelStep(s: StoreState, key: string): (r: (StoreState, Reply<nat>)) {
    var t := s.Advance().(dels := s.dels + 1);
    if s.FailsNext() then (t, Failed)
    else (t.(entries := t.entries - {key}), Ok(if key in t.entries then 1 else 0))
  }

  /** The store the lock service talks to; each command follows the step function named after it. */
  class Store {
    var entries: map<string, Entry>
    const env: map<nat, Event>
    var commands: nat
    var sets: nat
    var gets: nat
    var dels: nat
    var open: nat

    function State(): StoreState
      reads this
    {
      StoreState(entries, env, commands, sets, gets, dels, open)
    }

    constructor (initial: map<string, Entry>, env: map<nat, Event>)
      ensures State() == StoreState(initial, env, 0, 0, 0, 0, 0)
    {
      entries, this.env := initial, env;
      commands, sets, gets, dels, open := 0, 0, 0, 0, 0;
    }

    /** Applies what the world does before the next command; true when that command may go ahead. */
    method Receive() returns (ok: bool)
      modifies this
      ensures State() == old(State()).Advance()
      ensures ok == !old(State()).FailsNext()
    {
      var n := commands + 1;
      commands := n;
      if n in env {
        entries := Apply(entries, env[n]);
      }
      ok := !IsOutage(env, n);
    }

    method GetConnection() returns (ok: bool)
      modifies this
      ensures (State(), ok) == ConnectStep(old(State()))
    {
      ok := Receive();
      if ok {
        open := open + 1;
      }
    }

    method CloseConnection()
      requires open > 0
      modifies this
      ensures State() == CloseStep(old(State()))
    {
      open := open - 1;
    }

    method SetIfAbsent(key: string, e: Entry) returns (r: Reply<bool>)
      modifies this
      ensures (State(), r) == SetIfAbsentStep(old(State()), key, e)
    {
      var ok := Receive();
      sets := sets + 1;
      if !ok {
        r := Failed;
      } else if key in entries {
        r := Ok(false);
      } else {
        entries := entries[key := e];
        r := Ok(true);
      }
    }

    method Get(key: string) returns (r: Reply<Option<string>>)
      modifies this
      ensures (State(), r) == GetStep(old(State()), key)
    {
      var ok := Receive();
      gets := gets + 1;
      if !ok {
        r := Failed;
      } else if key in entries {
        r := Ok(Some(entries[key].owner));
      } else {
        r := Ok(None);
      }
    }

    method Del(key: string) returns (r: Reply<nat>)
      modifies this
      ensures (State(), r) == DelStep(old(State()), key)
    {
      var ok := Receive();
      dels := dels + 1;
      if !ok {
        r := Failed;
      } else {
        r := Ok(if key in entries then 1 else 0);
        entries := entries - {key};
      }
    }
  }
}
