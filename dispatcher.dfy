/**
 * The command dispatcher: the first argument names the command (exact,
 * case-sensitive match), the handler checks the argument count before it
 * touches the store, and exactly one reply is appended to the output.
 *
 * Respond / Execute are the reference semantics of one command over the
 * store's maps; the Dispatcher class runs a command against a Store object
 * and is proved to agree with them. The lemmas say what the replies mean.
 */
module Commands {
  import opened Wrappers
  import opened Decimal
  import opened Resp
  import opened Db

  datatype Command = Ping | Echo | Set | Get | Del | Exists | Expire | Ttl | Unknown

  /** The exact upper-case name each known command is sent under. */
  function CommandName(c: Command): string
    requires !c.Unknown?
  {
    match c
    case Ping => "PING"
    case Echo => "ECHO"
    case Set => "SET"
    case Get => "GET"
    case Del => "DEL"
    case Exists => "EXISTS"
    case Expire => "EXPIRE"
    case Ttl => "TTL"
  }

  /** to_command: exact comparison against each name in turn. */
  function ToCommand(name: string): Command {
    if name == "SET" then Set
    else if name == "GET" then Get
    else if name == "DEL" then Del
    else if name == "EXISTS" then Exists
    else if name == "EXPIRE" then Expire
    else if name == "TTL" then Ttl
    else if name == "PING" then Ping
    else if name == "ECHO" then Echo
    else Unknown
  }

  /** A name selects a command exactly when it is that command's name, byte for byte. */
  lemma ToCommandIsExactMatch(name: string, c: Command)
    ensures !c.Unknown? ==> (ToCommand(name) == c <==> name == CommandName(c))
    ensures ToCommand(name).Unknown? <==> forall d: Command :: !d.Unknown? ==> name != CommandName(d)
  {
    if !ToCommand(name).Unknown? {
      assert name == CommandName(ToCommand(name));
    }
  }

  /** Matching is case-sensitive: lower-case names are unknown. */
  lemma LowerCaseNamesAreUnknown()
    ensures ToCommand("get") == Unknown && ToCommand("set") == Unknown && ToCommand("ping") == Unknown
  {
  }

  /** Whether a handler accepts this many arguments, the command name included. */
  predicate ArityOk(c: Command, n: nat) {
    match c
    case Ping => n <= 2
    case Echo => n == 2
    case Set => n == 3
    case Get => n == 2
    case Del => n >= 2
    case Exists => n >= 2
    case Expire => n == 3
    case Ttl => n == 2
    case Unknown => true
  }

  /** The arity error, quoting the lower-case command name; append_error adds its own "ERR "
      in front, so the wire text carries "ERR" twice. */
  function WrongArity(c: Command): Reply
    requires !c.Unknown?
  {
    match c
    case Ping => Error("ERR wrong number of arguments for 'ping'")
    case Echo => Error("ERR wrong number of arguments for 'echo'")
    case Set => Error("ERR wrong number of arguments for 'set'")
    case Get => Error("ERR wrong number of arguments for 'get'")
    case Del => Error("ERR wrong number of arguments for 'del'")
    case Exists => Error("ERR wrong number of arguments for 'exists'")
    case Expire => Error("ERR wrong number of arguments for 'expire'")
    case Ttl => Error("ERR wrong number of arguments for 'ttl'")
  }

  const InvalidExpireTime: Reply := Error("ERR invalid expire time")

  /** handle_del's loop: store.del on each key in order, counting the true results. */
  function DelAll(keys: seq<string>, m: Maps): (int, Maps)
    decreases |keys|
  {
    if keys == [] then (0, m)
    else
      var before := DelAll(keys[..|keys| - 1], m);
      var step := DelOp(before.1, keys[|keys| - 1]);
      (before.0 + (if step.0 then 1 else 0), step.1)
  }

  /** handle_exists's loop: store.exists on each key in order, counting the true results. */
  function ExistsAll(keys: seq<string>, m: Maps, now: int): (int, Maps)
    decreases |keys|
  {
    if keys == [] then (0, m)
    else
      var before := ExistsAll(keys[..|keys| - 1], m, now);
      var step := GetOp(before.1, keys[|keys| - 1], now);
      (before.0 + (if step.0.Some? then 1 else 0), step.1)
  }

  // ----- the handlers: each checks its argument count before it touches the maps -----

  function RunPing(args: seq<string>, m: Maps): (Reply, Maps)
    requires |args| > 0
  {
    if !ArityOk(Ping, |args|) then (WrongArity(Ping), m)
    else if |args| == 1 then (Status("PONG"), m)
    else (Bulk(Some(args[1])), m)
  }

  function RunEcho(args: seq<string>, m: Maps): (Reply, Maps)
    requires |args| > 0
  {
    if !ArityOk(Echo, |args|) then (WrongArity(Echo), m) else (Bulk(Some(args[1])), m)
  }

  function RunSet(args: seq<string>, m: Maps): (Reply, Maps)
    requires |args| > 0
  {
    if !ArityOk(Set, |args|) then (WrongArity(Set), m) else (Status("OK"), SetOp(m, args[1], args[2]))
  }

  function RunGet(args: seq<string>, m: Maps, now: int): (Reply, Maps)
    requires |args| > 0
  {
    if !ArityOk(Get, |args|) then (WrongArity(Get), m)
    else var r := GetOp(m, args[1], now); (Bulk(r.0), r.1)
  }

  function RunDel(args: seq<string>, m: Maps): (Reply, Maps)
    requires |args| > 0
  {
    if !ArityOk(Del, |args|) then (WrongArity(Del), m)
    else var r := DelAll(args[1..], m); (Integer(r.0), r.1)
  }

  function RunExists(args: seq<string>, m: Maps, now: int): (Reply, Maps)
    requires |args| > 0
  {
    if !ArityOk(Exists, |args|) then (WrongArity(Exists), m)
    else var r := ExistsAll(args[1..], m, now); (Integer(r.0), r.1)
  }

  /** EXPIRE takes a whole, non-negative long long number of milliseconds. */
  function RunExpire(args: seq<string>, m: Maps, now: int): (Reply, Maps)
    requires |args| > 0
  {
    if !ArityOk(Expire, |args|) then (WrongArity(Expire), m)
    else match FromChars(args[2])
      case None => (InvalidExpireTime, m)
      case Some(ttl) =>
        if ttl < 0 then (InvalidExpireTime, m)
        else var r := ExpireOp(m, args[1], ttl, now); (Integer(if r.0 then 1 else 0), r.1)
  }

  function RunTtl(args: seq<string>, m: Maps, now: int): (Reply, Maps)
    requires |args| > 0
  {
    if !ArityOk(Ttl, |args|) then (WrongArity(Ttl), m)
    else var r := TtlOp(m, args[1], now); (Integer(r.0), r.1)
  }

  /** The reply and the new maps of the handler for `c`. */
  function Respond(c: Command, args: seq<string>, m: Maps, now: int): (Reply, Maps)
    requires |args| > 0
  {
    match c
    case Ping => RunPing(args, m)
    case Echo => RunEcho(args, m)
    case Set => RunSet(args, m)
    case Get => RunGet(args, m, now)
    case Del => RunDel(args, m)
    case Exists => RunExists(args, m, now)
    case Expire => RunExpire(args, m, now)
    case Ttl => RunTtl(args, m, now)
    case Unknown => (Error("unknown command"), m)
  }

  /** dispatch: the reply and the new maps for one command. */
  function Execute(args: seq<string>, m: Maps, now: int): (Reply, Maps) {
    if |args| == 0 then (Error("empty command"), m) else Respond(ToCommand(args[0]), args, m, now)
  }

  // ----- what the counting loops compute -----

  /** How many entries of `keys` lie in `s`, duplicates counted each time. */
  function CountIn(keys: seq<string>, s: set<string>): nat
    decreases |keys|
  {
    if keys == [] then 0
    else CountIn(keys[..|keys| - 1], s) + (if keys[|keys| - 1] in s then 1 else 0)
  }

  lemma DelAllStep(keys: seq<string>, m: Maps)
    requires keys != []
    ensures var before := DelAll(keys[..|keys| - 1], m); var step := DelOp(before.1, keys[|keys| - 1]);
      DelAll(keys, m) == (before.0 + (if step.0 then 1 else 0), step.1)
  {
  }

  lemma ExistsAllStep(keys: seq<string>, m: Maps, now: int)
    requires keys != []
    ensures var before := ExistsAll(keys[..|keys| - 1], m, now); var step := GetOp(before.1, keys[|keys| - 1], now);
      ExistsAll(keys, m, now) == (before.0 + (if step.0.Some? then 1 else 0), step.1)
  {
  }

  /** One more key for DEL's loop. */
  lemma DelAllSnoc(keys: seq<string>, key: string, m: Maps)
    ensures var before := DelAll(keys, m); var step := DelOp(before.1, key);
      DelAll(keys + [key], m) == (before.0 + (if step.0 then 1 else 0), step.1)
  {
    assert (keys + [key])[..|keys|] == keys;
    DelAllStep(keys + [key], m);
  }

  /** One more key for EXISTS's loop. */
  lemma ExistsAllSnoc(keys: seq<string>, key: string, m: Maps, now: int)
    ensures var before := ExistsAll(keys, m, now); var step := GetOp(before.1, key, now);
      ExistsAll(keys + [key], m, now) == (before.0 + (if step.0.Some? then 1 else 0), step.1)
  {
    assert (keys + [key])[..|keys|] == keys;
    ExistsAllStep(keys + [key], m, now);
  }

  /** The distinct keys named in `keys`. */
  function Named(keys: seq<string>): set<string>
    decreases |keys|
  {
    if keys == [] then {} else Named(keys[..|keys| - 1]) + {keys[|keys| - 1]}
  }

  lemma {:induction false} NamedMeaning(keys: seq<string>)
    ensures forall k :: k in Named(keys) <==> k in keys
    decreases |keys|
  {
    if keys != [] {
      NamedMeaning(keys[..|keys| - 1]);
      assert keys == keys[..|keys| - 1] + [keys[|keys| - 1]];
    }
  }

  lemma CountStep(named: set<string>, stored: set<string>, key: string)
    ensures |(named + {key}) * stored| == |named * stored| + (if key in stored && key !in named then 1 else 0)
  {
    if key in stored && key !in named {
      assert (named + {key}) * stored == named * stored + {key};
    } else {
      assert (named + {key}) * stored == named * stored;
    }
  }

  lemma EraseStep<V>(m: map<string, V>, named: set<string>, key: string)
    ensures (m - named) - {key} == m - (named + {key})
    ensures key !in m ==> m - named == m - (named + {key})
  {
  }

  lemma {:induction false} DelAllKv(keys: seq<string>, m: Maps)
    ensures DelAll(keys, m).1.kv == m.kv - Named(keys)
    decreases |keys|
  {
    if keys == [] {
      assert m.kv - {} == m.kv;
    } else {
      var init := keys[..|keys| - 1];
      var last := keys[|keys| - 1];
      DelAllKv(init, m);
      EraseStep(m.kv, Named(init), last);
    }
  }

  lemma {:induction false} DelAllCount(keys: seq<string>, m: Maps)
    ensures DelAll(keys, m).0 == |Named(keys) * m.kv.Keys|
    decreases |keys|
  {
    if keys != [] {
      var init := keys[..|keys| - 1];
      var last := keys[|keys| - 1];
      DelAllCount(init, m);
      DelAllKv(init, m);
      CountStep(Named(init), m.kv.Keys, last);
    }
  }

  lemma {:induction false} DelAllExpires(keys: seq<string>, m: Maps)
    requires Consistent(m)
    ensures DelAll(keys, m).1.expires == m.expires - Named(keys)
    decreases |keys|
  {
    if keys == [] {
      assert m.expires - {} == m.expires;
    } else {
      var init := keys[..|keys| - 1];
      var last := keys[|keys| - 1];
      DelAllExpires(init, m);
      DelAllKv(init, m);
      EraseStep(m.expires, Named(init), last);
    }
  }

  /** DEL counts each distinct stored key once, stale or not, and erases every named key (from both maps while they agree). */
  lemma DelAllMeaning(keys: seq<string>, m: Maps)
    ensures DelAll(keys, m).0 == |Named(keys) * m.kv.Keys|
    ensures DelAll(keys, m).1.kv == m.kv - Named(keys)
    ensures Consistent(m) ==> DelAll(keys, m).1.expires == m.expires - Named(keys)
  {
    DelAllCount(keys, m);
    DelAllKv(keys, m);
    if Consistent(m) {
      DelAllExpires(keys, m);
    }
  }

  /** EXISTS counts every argument naming a live key, duplicates included; what it erases was not live. */
  lemma {:induction false} ExistsAllMeaning(keys: seq<string>, m: Maps, now: int, t: int)
    requires now <= t
    ensures var r := ExistsAll(keys, m, now);
      && r.0 == CountIn(keys, Live(m, now).Keys)
      && Live(r.1, now) == Live(m, now)
      && Live(r.1, t) == Live(m, t)
      && (Consistent(m) ==> Consistent(r.1))
    decreases |keys|
  {
    if keys != [] {
      var init := keys[..|keys| - 1];
      var last := keys[|keys| - 1];
      ExistsAllMeaning(init, m, now, t);
      var m1 := ExistsAll(init, m, now).1;
      GetOpMeaning(m1, last, now, now);
      GetOpMeaning(m1, last, now, t);
      if Consistent(m) {
        OperationsKeepConsistent(m1, last, "", 0, now);
      }
    }
  }

  lemma {:induction false} DelAllKeepsConsistent(keys: seq<string>, m: Maps)
    requires Consistent(m)
    ensures Consistent(DelAll(keys, m).1)
  {
    DelAllMeaning(keys, m);
  }

  // ----- what the replies mean -----

  /** Every command keeps each deadline attached to a stored key. */
  lemma ExecuteKeepsConsistent(args: seq<string>, m: Maps, now: int)
    requires Consistent(m)
    ensures Consistent(Execute(args, m, now).1)
  {
    if |args| > 0 && ArityOk(ToCommand(args[0]), |args|) {
      match ToCommand(args[0])
      case Del => DelAllKeepsConsistent(args[1..], m);
      case Exists => ExistsAllMeaning(args[1..], m, now, now);
      case Set => OperationsKeepConsistent(m, args[1], args[2], 0, now);
      case Expire =>
        var ttl := FromChars(args[2]);
        if ttl.Some? {
          OperationsKeepConsistent(m, args[1], "", ttl.value, now);
        }
      case Get => OperationsKeepConsistent(m, args[1], "", 0, now);
      case Ttl => OperationsKeepConsistent(m, args[1], "", 0, now);
      case _ =>
    }
  }

  /** An empty or unknown command is answered with an error and changes nothing. */
  lemma EmptyOrUnknownChangesNothing(args: seq<string>, m: Maps, now: int)
    requires |args| == 0 || ToCommand(args[0]).Unknown?
    ensures Execute(args, m, now) == (Error(if |args| == 0 then "empty command" else "unknown command"), m)
  {
  }

  /** A known command with the wrong argument count is answered with the arity error and changes nothing. */
  lemma WrongArityChangesNothing(args: seq<string>, m: Maps, now: int)
    requires |args| > 0 && !ToCommand(args[0]).Unknown? && !ArityOk(ToCommand(args[0]), |args|)
    ensures Execute(args, m, now) == (WrongArity(ToCommand(args[0])), m)
  {
  }

  /** An EXPIRE argument that is not a whole long long, or is negative, is refused and changes nothing. */
  lemma InvalidExpireChangesNothing(key: string, ttl: string, m: Maps, now: int)
    requires FromChars(ttl).None? || FromChars(ttl).value < 0
    ensures Execute(["EXPIRE", key, ttl], m, now) == (InvalidExpireTime, m)
  {
  }

  /** After SET k v, GET k returns v at any later time, and TTL k reports no deadline. */
  lemma SetThenGetAndTtl(m: Maps, key: string, value: string, now: int, t: int)
    ensures var m' := Execute(["SET", key, value], m, now).1;
      && Execute(["GET", key], m', t).0 == Bulk(Some(value))
      && Execute(["TTL", key], m', t).0 == Integer(-1)
  {
    SetOpMeaning(m, key, value, t);
  }

  /**
   * EXPIRE k n on a stored key answers 1, after which TTL reads n back at once
   * (or -2 when n is 0); on a missing key it answers 0. The store computes the
   * corrected deadline Deadline; the source's 64-bit deadline agrees with it
   * only while now + n ms fits in 64 bits (ExpireAsWrittenThenTtl).
   */
  lemma ExpireThenTtlReply(m: Maps, key: string, n: nat, now: int)
    requires n <= LongLongMax
    ensures var e := Execute(["EXPIRE", key, IntToDecimal(n)], m, now);
      && e.0 == Integer(if key in m.kv then 1 else 0)
      && (key in m.kv ==> Execute(["TTL", key], e.1, now).0 == Integer(if n == 0 then -2 else n))
  {
    FromCharsInvertsIntToDecimal(n);
    if key in m.kv {
      ExpireThenTtl(m, key, n, now);
    }
  }

  /** DEL a a on a stored a answers 1: a repeated key is deleted once. */
  lemma DelCountsRepeatedKeyOnce(m: Maps, key: string, now: int)
    requires key in m.kv
    ensures Execute(["DEL", key, key], m, now).0 == Integer(1)
  {
    assert ["DEL", key, key][1..] == [key, key];
    DelAllMeaning([key, key], m);
    NamedMeaning([key, key]);
    assert Named([key, key]) * m.kv.Keys == {key};
  }

  /** EXISTS counts repetitions: EXISTS a a on a live a answers 2. */
  lemma ExistsCountsRepeatedKeyTwice(m: Maps, key: string, now: int)
    requires key in Live(m, now)
    ensures Execute(["EXISTS", key, key], m, now).0 == Integer(2)
  {
    assert ["EXISTS", key, key][1..] == [key, key];
    ExistsAllMeaning([key, key], m, now, now);
    var live := Live(m, now).Keys;
    assert [key, key][..1] == [key];
    assert [key][..0] == [];
    assert CountIn([key], live) == 1;
    assert CountIn([key, key], live) == 2;
  }

  // ----- the dispatcher object -----

  class Dispatcher {
    const store: Store

    constructor (store: Store)
      ensures this.store == store
    {
      this.store := store;
    }

    /** dispatch: appends the one reply of the command and updates the store as Execute says. */
    method Dispatch(args: seq<string>, out: string, now: int) returns (res: string)
      requires store.Valid()
      modifies store
      ensures store.Valid()
      ensures res == out + Encode(Execute(args, old(store.State()), now).0)
      ensures store.State() == Execute(args, old(store.State()), now).1
    {
      if |args| == 0 {
        res := AppendError(out, "empty command");
        return;
      }
      match ToCommand(args[0])
      case Set => res := HandleSet(args, out);
      case Get => res := HandleGet(args, out, now);
      case Del => res := HandleDel(args, out);
      case Exists => res := HandleExists(args, out, now);
      case Expire => res := HandleExpire(args, out, now);
      case Ttl => res := HandleTtl(args, out, now);
      case Ping => res := HandlePing(args, out);
      case Echo => res := HandleEcho(args, out);
      case Unknown => res := AppendError(out, "unknown command");
    }

    method HandlePing(args: seq<string>, out: string) returns (res: string)
      requires |args| > 0
      ensures res == out + Encode(RunPing(args, store.State()).0)
    {
      if |args| > 2 {
        res := AppendError(out, "ERR wrong number of arguments for 'ping'");
        return;
      }
      if |args| == 1 {
        res := AppendStatusString(out, "PONG");
      } else {
        res := AppendString(out, args[1]);
      }
    }

    method HandleEcho(args: seq<string>, out: string) returns (res: string)
      requires |args| > 0
      ensures res == out + Encode(RunEcho(args, store.State()).0)
    {
      if |args| != 2 {
        res := AppendError(out, "ERR wrong number of arguments for 'echo'");
        return;
      }
      res := AppendString(out, args[1]);
    }

    method HandleSet(args: seq<string>, out: string) returns (res: string)
      requires |args| > 0 && store.Valid()
      modifies store
      ensures store.Valid()
      ensures res == out + Encode(RunSet(args, old(store.State())).0)
      ensures store.State() == RunSet(args, old(store.State())).1
    {
      if |args| != 3 {
        res := AppendError(out, "ERR wrong number of arguments for 'set'");
        return;
      }
      store.Set(args[1], args[2]);
      res := AppendOk(out);
    }

    method HandleGet(args: seq<string>, out: string, now: int) returns (res: string)
      requires |args| > 0 && store.Valid()
      modifies store
      ensures store.Valid()
      ensures res == out + Encode(RunGet(args, old(store.State()), now).0)
      ensures store.State() == RunGet(args, old(store.State()), now).1
    {
      if |args| != 2 {
        res := AppendError(out, "ERR wrong number of arguments for 'get'");
        return;
      }
      var val := store.Get(args[1], now);
      res := AppendOptionalString(out, val);
    }

    method HandleDel(args: seq<string>, out: string) returns (res: string)
      requires |args| > 0 && store.Valid()
      modifies store
      ensures store.Valid()
      ensures res == out + Encode(RunDel(args, old(store.State())).0)
      ensures store.State() == RunDel(args, old(store.State())).1
    {
      if |args| < 2 {
        res := AppendError(out, "ERR wrong number of arguments for 'del'");
        return;
      }
      var removed := DelKeys(args[1..]);
      res := AppendInteger(out, removed);
    }

    method HandleExists(args: seq<string>, out: string, now: int) returns (res: string)
      requires |args| > 0 && store.Valid()
      modifies store
      ensures store.Valid()
      ensures res == out + Encode(RunExists(args, old(store.State()), now).0)
      ensures store.State() == RunExists(args, old(store.State()), now).1
    {
      if |args| < 2 {
        res := AppendError(out, "ERR wrong number of arguments for 'exists'");
        return;
      }
      var count := ExistsKeys(args[1..], now);
      res := AppendInteger(out, count);
    }

    /** handle_del's loop: store.del on each key in order, counting the keys it removed. */
    method DelKeys(keys: seq<string>) returns (removed: int)
      requires store.Valid()
      modifies store
      ensures store.Valid()
      ensures (removed, store.State()) == DelAll(keys, old(store.State()))
    {
      ghost var m0 := store.State();
      removed := 0;
      for i := 0 to |keys|
        invariant (removed, store.State()) == DelAll(keys[..i], m0)
        invariant store.Valid()
      {
        DelAllSnoc(keys[..i], keys[i], m0);
        assert keys[..i + 1] == keys[..i] + [keys[i]];
        var ok := store.Del(keys[i]);
        if ok {
          removed := removed + 1;
        }
      }
      assert keys[..|keys|] == keys;
    }

    /** handle_exists's loop: store.exists on each key in order, counting the keys it found live. */
    method ExistsKeys(keys: seq<string>, now: int) returns (count: int)
      requires store.Valid()
      modifies store
      ensures store.Valid()
      ensures (count, store.State()) == ExistsAll(keys, old(store.State()), now)
    {
      ghost var m0 := store.State();
      count := 0;
      for i := 0 to |keys|
        invariant (count, store.State()) == ExistsAll(keys[..i], m0, now)
        invariant store.Valid()
      {
        ExistsAllSnoc(keys[..i], keys[i], m0, now);
        assert keys[..i + 1] == keys[..i] + [keys[i]];
        var found := store.Exists(keys[i], now);
        if found {
          count := count + 1;
        }
      }
      assert keys[..|keys|] == keys;
    }

    method HandleExpire(args: seq<string>, out: string, now: int) returns (res: string)
      requires |args| > 0 && store.Valid()
      modifies store
      ensures store.Valid()
      ensures res == out + Encode(RunExpire(args, old(store.State()), now).0)
      ensures store.State() == RunExpire(args, old(store.State()), now).1
    {
      if |args| != 3 {
        res := AppendError(out, "ERR wrong number of arguments for 'expire'");
        return;
      }
      var ttlMs := FromChars(args[2]);
      if ttlMs.None? || ttlMs.value < 0 {
        res := AppendError(out, "ERR invalid expire time");
        return;
      }
      var ok := store.Expire(args[1], ttlMs.value, now);
      res := AppendInteger(out, if ok then 1 else 0);
    }

    method HandleTtl(args: seq<string>, out: string, now: int) returns (res: string)
      requires |args| > 0 && store.Valid()
      modifies store
      ensures store.Valid()
      ensures res == out + Encode(RunTtl(args, old(store.State()), now).0)
      ensures store.State() == RunTtl(args, old(store.State()), now).1
    {
      if |args| != 2 {
        res := AppendError(out, "ERR wrong number of arguments for 'ttl'");
        return;
      }
      var remaining := store.Ttl(args[1], now);
      res := AppendInteger(out, remaining);
    }
  }
}
