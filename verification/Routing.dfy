/** Which shard runs a command, and how a command over several shards is split. */
module Routing {
  import opened Resp
  import opened Pipelines

  type Positive = n: nat | n > 0 witness 1

  /** One row of the command table; `first` 0 means the command has no keys. */
  datatype Spec = Spec(arity: int, first: nat, last: int, stride: Positive)

  /** A server: its shards, its hash function, its command table and its handlers. */
  datatype Config<!V> = Config(
    shards: Positive,
    hash: string -> nat,
    specs: map<string, Spec>,
    handler: (map<string, V>, Argv) -> (map<string, V>, string))

  function Owner<V>(cfg: Config<V>, key: string): (s: nat)
    ensures s < cfg.shards
  {
    cfg.hash(key) % cfg.shards
  }

  function LowerChar(c: char): char {
    if 'A' <= c <= 'Z' then c + 32 as char else c
  }

  function Lower(s: string): string {
    seq(|s|, i requires 0 <= i < |s| => LowerChar(s[i]))
  }

  ghost predicate SmallLetterOf(c: char, d: char) {
    exists k :: 0 <= k < 26 && "ABCDEFGHIJKLMNOPQRSTUVWXYZ"[k] == c && "abcdefghijklmnopqrstuvwxyz"[k] == d
  }

  /** Capital letters become the small ones; every other character stays. */
  lemma LowerMeans(s: string)
    ensures |Lower(s)| == |s|
    ensures forall i :: 0 <= i < |s| ==>
      if 'A' <= s[i] <= 'Z' then SmallLetterOf(s[i], Lower(s)[i]) else Lower(s)[i] == s[i]
  {
    forall i | 0 <= i < |s| && 'A' <= s[i] <= 'Z'
      ensures SmallLetterOf(s[i], Lower(s)[i])
    {
      var k := (s[i] - 'A') as int;
      assert "ABCDEFGHIJKLMNOPQRSTUVWXYZ"[k] == s[i];
    }
  }

  predicate ArityFits(arity: int, argc: nat) {
    if arity >= 0 then argc == arity else argc >= -arity
  }

  predicate ArityOk(spec: Spec, argc: nat) {
    ArityFits(spec.arity, argc)
  }

  // ---------------------------------------------------------------------------
  // Keys
  // ---------------------------------------------------------------------------

  function LastKey(spec: Spec, argc: nat): int {
    var last := if spec.last < 0 then argc + spec.last else spec.last;
    if last >= argc then argc - 1 else last
  }

  function KeysAt(argv: Argv, i: nat, last: int, stride: Positive): seq<string>
    requires last < |argv|
    decreases last - i
  {
    if i > last then [] else [argv[i]] + KeysAt(argv, i + stride, last, stride)
  }

  function KeysOf(spec: Spec, argv: Argv): seq<string> {
    if spec.first == 0 then [] else KeysAt(argv, spec.first, LastKey(spec, |argv|), spec.stride)
  }

  method ExtractKeys(spec: Spec, argv: Argv) returns (keys: seq<string>)
    ensures keys == KeysOf(spec, argv)
  {
    keys := [];
    if spec.first == 0 {
      return;
    }
    var last := if spec.last < 0 then |argv| + spec.last else spec.last;
    if last >= |argv| {
      last := |argv| - 1;
    }
    var i := spec.first;
    while i <= last
      invariant keys + KeysAt(argv, i, last, spec.stride) == KeysOf(spec, argv)
      decreases last - i
    {
      keys := keys + [argv[i]];
      i := i + spec.stride;
    }
  }

  /** The `j`th key is the argument `j` strides after the first, and there is one for each such argument up to the
      last. */
  lemma {:induction false} KeyPositions(argv: Argv, i: nat, last: int, stride: Positive, j: nat)
    requires last < |argv|
    ensures j < |KeysAt(argv, i, last, stride)| <==> i + j * stride <= last
    ensures j < |KeysAt(argv, i, last, stride)| ==> KeysAt(argv, i, last, stride)[j] == argv[i + j * stride]
    decreases j
  {
    if j > 0 {
      assert i + stride + (j - 1) * stride == i + j * stride;
      KeyPositions(argv, i + stride, last, stride, j - 1);
    }
  }

  /** The keys of a command by its row of the table: a last position below zero counts from the end, and one behind the
      last argument is cut off there. */
  lemma KeysMean(spec: Spec, argv: Argv, j: nat)
    ensures var k, last := spec.first + j * spec.stride, if spec.last < 0 then |argv| + spec.last else spec.last;
      && (j < |KeysOf(spec, argv)| <==> spec.first != 0 && k <= last && k < |argv|)
      && (j < |KeysOf(spec, argv)| ==> KeysOf(spec, argv)[j] == argv[k])
  {
    if spec.first != 0 {
      KeyPositions(argv, spec.first, LastKey(spec, |argv|), spec.stride, j);
    }
  }

  ghost predicate OneOwner<V>(cfg: Config<V>, keys: seq<string>)
    requires keys != []
  {
    forall i :: 0 <= i < |keys| ==> Owner(cfg, keys[i]) == Owner(cfg, keys[0])
  }

  method SameOwner<V>(cfg: Config<V>, keys: seq<string>) returns (single: bool)
    requires keys != []
    ensures single == OneOwner(cfg, keys)
  {
    var first := Owner(cfg, keys[0]);
    single := true;
    for i := 1 to |keys|
      invariant forall j :: 0 <= j < i ==> Owner(cfg, keys[j]) == first
    {
      if Owner(cfg, keys[i]) != first {
        return false;
      }
    }
  }

  // ---------------------------------------------------------------------------
  // Routes
  // ---------------------------------------------------------------------------

  /** A request to one shard: what to run there and whether the reply is read as a count. */
  datatype Part = Part(target: nat, args: Argv, isInt: bool)

  /** `Overrun` stands for reading past the end of the arguments, which the program does not guard against. */
  datatype Route = Fail(reply: string) | Inline | Remote(kind: Kind, parts: seq<Part>) | Overrun

  predicate Decomposable(name: string) {
    name in {"mget", "mset", "del", "unlink", "exists", "touch"}
  }

  function KindOf(name: string): Kind {
    if name == "mget" then MGet else if name == "mset" then MSet else if name == "exists" then ExistsCount else DelCount
  }

  predicate Counts(kind: Kind) {
    kind.DelCount? || kind.ExistsCount?
  }

  function SubArgs(kind: Kind, argv: Argv, key: string, i: nat): Argv
    requires kind.MSet? ==> 2 * i + 2 < |argv|
  {
    match kind
    case MGet => ["GET", key]
    case MSet => ["SET", key, argv[2 * i + 2]]
    case ExistsCount => ["EXISTS", key]
    case _ => ["DEL", key]
  }

  function SplitPart<V>(cfg: Config<V>, kind: Kind, argv: Argv, keys: seq<string>, i: nat): Part
    requires i < |keys| && (kind.MSet? ==> 2 * i + 2 < |argv|)
  {
    Part(Owner(cfg, keys[i]), SubArgs(kind, argv, keys[i], i), Counts(kind))
  }

  function SplitOf<V>(cfg: Config<V>, kind: Kind, argv: Argv, keys: seq<string>): Route
    requires keys != []
  {
    if kind.MSet? && 2 * |keys| >= |argv| then Overrun
    else Remote(kind, seq(|keys|, i requires 0 <= i < |keys| => SplitPart(cfg, kind, argv, keys, i)))
  }

  method SplitLoop<V>(cfg: Config<V>, kind: Kind, argv: Argv, keys: seq<string>) returns (route: Route)
    requires keys != []
    ensures route == SplitOf(cfg, kind, argv, keys)
  {
    var parts: seq<Part> := [];
    for i := 0 to |keys|
      invariant kind.MSet? && i > 0 ==> 2 * i < |argv|
      invariant |parts| == i && forall j :: 0 <= j < i ==> parts[j] == SplitPart(cfg, kind, argv, keys, j)
    {
      if kind.MSet? && 2 * i + 2 >= |argv| {
        return Overrun;
      }
      var isInt := kind.DelCount? || kind.ExistsCount?;
      var sub: Argv;
      match kind {
        case MGet => sub := ["GET", keys[i]];
        case MSet => sub := ["SET", keys[i], argv[2 * i + 2]];
        case ExistsCount => sub := ["EXISTS", keys[i]];
        case _ => sub := ["DEL", keys[i]];
      }
      parts := parts + [Part(Owner(cfg, keys[i]), sub, isInt)];
    }
    route := Remote(kind, parts);
  }

  function UnknownCommand(name: string): string {
    ErrorReply("ERR unknown command '" + name + "'")
  }

  function WrongArity(name: string): string {
    ErrorReply("ERR wrong number of arguments for '" + name + "' command")
  }

  /** Where a command goes when a connection of shard `here` submits it. */
  ghost function RouteOf<V>(cfg: Config<V>, here: nat, argv: Argv): Route
    requires argv != []
  {
    var name := Lower(argv[0]);
    if name !in cfg.specs then Fail(UnknownCommand(argv[0]))
    else if !ArityOk(cfg.specs[name], |argv|) then Fail(WrongArity(name))
    else
      var keys := KeysOf(cfg.specs[name], argv);
      if keys == [] then Inline
      else if OneOwner(cfg, keys) then
        var owner := Owner(cfg, keys[0]);
        if owner == here then Inline else Remote(Single, [Part(owner, argv, false)])
      else if Decomposable(name) then SplitOf(cfg, KindOf(name), argv, keys)
      else Fail(ErrorReply("CROSSSLOT Keys in request map to different shards"))
  }

  /** Running a command on one shard's keyspace: the table is consulted again there. */
  function Execute<V>(cfg: Config<V>, db: map<string, V>, argv: Argv): (map<string, V>, string)
    requires argv != []
  {
    var name := Lower(argv[0]);
    if name !in cfg.specs then (db, UnknownCommand(argv[0]))
    else if !ArityOk(cfg.specs[name], |argv|) then (db, WrongArity(name))
    else cfg.handler(db, argv)
  }

  method Dispatch<V>(cfg: Config<V>, here: nat, argv: Argv) returns (route: Route)
    requires argv != []
    ensures route == RouteOf(cfg, here, argv)
  {
    var name := Lower(argv[0]);
    if name !in cfg.specs {
      return Fail(UnknownCommand(argv[0]));
    }
    var spec := cfg.specs[name];
    if !ArityOk(spec, |argv|) {
      return Fail(WrongArity(name));
    }
    var keys := ExtractKeys(spec, argv);
    if keys == [] {
      return Inline;
    }
    var single := SameOwner(cfg, keys);
    if single {
      var owner := Owner(cfg, keys[0]);
      return if owner == here then Inline else Remote(Single, [Part(owner, argv, false)]);
    }
    if Decomposable(name) {
      var kind := KindOf(name);
      route := SplitLoop(cfg, kind, argv, keys);
    } else {
      route := Fail(ErrorReply("CROSSSLOT Keys in request map to different shards"));
    }
  }

  // ---------------------------------------------------------------------------
  // Every command runs where its keys live
  // ---------------------------------------------------------------------------

  /** The keys a command touches, by the table. */
  function Touched<V>(cfg: Config<V>, argv: Argv): seq<string>
    requires argv != []
  {
    var name := Lower(argv[0]);
    if name in cfg.specs && ArityOk(cfg.specs[name], |argv|) then KeysOf(cfg.specs[name], argv) else []
  }

  /** The rows of the table that splitting relies on. */
  ghost predicate TableOk<V>(cfg: Config<V>) {
    && "get" in cfg.specs && cfg.specs["get"] == Spec(2, 1, 1, 1)
    && "set" in cfg.specs && cfg.specs["set"] == Spec(-3, 1, 1, 1)
    && "exists" in cfg.specs && cfg.specs["exists"] == Spec(-2, 1, -1, 1)
    && "del" in cfg.specs && cfg.specs["del"] == Spec(-2, 1, -1, 1)
    && "mget" in cfg.specs && cfg.specs["mget"] == Spec(-2, 1, -1, 1)
    && "mset" in cfg.specs && cfg.specs["mset"] == Spec(-3, 1, -1, 2)
    && "unlink" in cfg.specs && cfg.specs["unlink"] == Spec(-2, 1, -1, 1)
    && "touch" in cfg.specs && cfg.specs["touch"] == Spec(-2, 1, -1, 1)
  }

  /** Every key of the command is owned by shard `s`. */
  ghost predicate AtHome<V>(cfg: Config<V>, s: nat, argv: Argv)
    requires argv != []
  {
    forall i :: 0 <= i < |Touched(cfg, argv)| ==> Owner(cfg, Touched(cfg, argv)[i]) == s
  }

  lemma SubCommandNames()
    ensures Lower("GET") == "get" && Lower("SET") == "set" && Lower("EXISTS") == "exists" && Lower("DEL") == "del"
  {
  }

  /** A sub-request touches exactly the key it was made for. */
  lemma SubTouches<V>(cfg: Config<V>, kind: Kind, argv: Argv, key: string, i: nat)
    requires TableOk(cfg) && (kind.MSet? ==> 2 * i + 2 < |argv|)
    ensures Touched(cfg, SubArgs(kind, argv, key, i)) == [key]
  {
    SubCommandNames();
    var sub := SubArgs(kind, argv, key, i);
    hide Lower;
    assert KeysAt(sub, 2, 1, 1) == [];
    assert KeysAt(sub, 1, 1, 1) == [sub[1]] + KeysAt(sub, 2, 1, 1);
  }

  /** Whatever a route runs, it runs on the shard that owns the keys. */
  lemma RoutesHome<V>(cfg: Config<V>, here: nat, argv: Argv)
    requires TableOk(cfg) && argv != []
    ensures RouteOf(cfg, here, argv).Inline? ==> AtHome(cfg, here, argv)
    ensures var r := RouteOf(cfg, here, argv);
      r.Remote? ==> r.parts != [] && forall i :: 0 <= i < |r.parts| ==>
        r.parts[i].target < cfg.shards && r.parts[i].args != [] && AtHome(cfg, r.parts[i].target, r.parts[i].args)
  {
    var r := RouteOf(cfg, here, argv);
    if r.Remote? {
      var keys := Touched(cfg, argv);
      if !OneOwner(cfg, keys) {
        forall i | 0 <= i < |r.parts|
          ensures r.parts[i].args != [] && AtHome(cfg, r.parts[i].target, r.parts[i].args)
        {
          SubTouches(cfg, r.kind, argv, keys[i], i);
        }
      }
    }
  }

  /** Reading past the arguments happens exactly for MSET with a value missing and keys on several shards. */
  lemma OverrunExactly<V>(cfg: Config<V>, here: nat, argv: Argv)
    requires TableOk(cfg) && argv != []
    ensures RouteOf(cfg, here, argv).Overrun? <==>
      && Lower(argv[0]) == "mset" && |argv| >= 3 && |argv| % 2 == 0
      && Touched(cfg, argv) != [] && !OneOwner(cfg, Touched(cfg, argv))
  {
    if Lower(argv[0]) == "mset" && |argv| >= 3 {
      var keys := Touched(cfg, argv);
      KeyPositions(argv, 1, |argv| - 1, 2, |keys|);
      KeyPositions(argv, 1, |argv| - 1, 2, |keys| - 1);
    }
  }

  /** The overrun is real: MSET a 1 b, with the two keys on two shards. */
  lemma MSetOverruns<V>(cfg: Config<V>, here: nat)
    requires TableOk(cfg) && Owner(cfg, "a") != Owner(cfg, "b")
    ensures RouteOf(cfg, here, ["MSET", "a", "1", "b"]).Overrun?
  {
    var argv := ["MSET", "a", "1", "b"];
    assert Lower("MSET") == "mset";
    hide Lower;
    assert KeysAt(argv, 5, 3, 2) == [] && KeysAt(argv, 3, 3, 2) == ["b"] && KeysAt(argv, 1, 3, 2) == ["a", "b"];
    assert !OneOwner(cfg, ["a", "b"]) by {
      assert Owner(cfg, ["a", "b"][1]) != Owner(cfg, "a");
    }
    OverrunExactly(cfg, here, argv);
  }

  /** Only a command split over several shards can send a request to the connection's own shard. */
  lemma OwnShardMeansSplit<V>(cfg: Config<V>, here: nat, argv: Argv, i: nat)
    requires argv != [] && RouteOf(cfg, here, argv).Remote? && i < |RouteOf(cfg, here, argv).parts|
    requires RouteOf(cfg, here, argv).parts[i].target == here
    ensures !OneOwner(cfg, Touched(cfg, argv)) && Decomposable(Lower(argv[0]))
  {
  }
}
