/**
 * Moving a panel container onto a new image. Docker merges an image's environment,
 * labels and command into what a container inspects as; the swap has to take the old
 * image's part out again.
 */
module ImageSwap {
  import opened Bytes
  import opened Text

  type Env = seq<string>
  type Labels = map<string, string>
  type Cmd = Option<seq<string>>

  datatype ImageConfig = ImageConfig(env: Env, labels: Labels, cmd: Cmd)

  type Images = map<string, ImageConfig>

  /** What inspecting a container gives and creating one takes; `settings` are the host and network configuration. */
  datatype RecreateSpec = RecreateSpec(name: string, image: string, env: Env, labels: Labels, cmd: Cmd,
                                       settings: string)

  /** A container's own configuration, before any merging. */
  datatype Container = Container(config: RecreateSpec, running: bool)

  // ----- environments -----

  /** What stands before the first `=`, or everything where there is none. */
  function EnvKey(entry: string): string {
    UpTo(entry, '=')
  }

  function EnvKeys(env: Env): set<string> {
    set e | e in env :: EnvKey(e)
  }

  function Entries(env: Env): set<string> {
    set e | e in env
  }

  /** `env` without the entries that have one of `keys` or are one of `entries`, in order. */
  function Without(env: Env, keys: set<string>, entries: set<string>): (r: Env)
    ensures forall e :: e in r <==> e in env && EnvKey(e) !in keys && e !in entries
  {
    if env == [] then []
    else (if EnvKey(env[0]) in keys || env[0] in entries then [] else [env[0]]) + Without(env[1..], keys, entries)
  }

  lemma {:induction false} WithoutConcat(a: Env, b: Env, keys: set<string>, entries: set<string>)
    ensures Without(a + b, keys, entries) == Without(a, keys, entries) + Without(b, keys, entries)
  {
    if a == [] {
      assert a + b == b;
    } else {
      assert (a + b)[1..] == a[1..] + b;
      WithoutConcat(a[1..], b, keys, entries);
    }
  }

  lemma WithoutOne(e: string, keys: set<string>, entries: set<string>)
    ensures Without([e], keys, entries) == if EnvKey(e) in keys || e in entries then [] else [e]
  {
    assert [e][1..] == [];
  }

  lemma WithoutOneTwice(e: string, keys: set<string>, entries: set<string>, keys': set<string>, entries': set<string>)
    ensures Without(Without([e], keys, entries), keys', entries') == Without([e], keys + keys', entries + entries')
  {
    hide EnvKey;
    WithoutOne(e, keys, entries);
    WithoutOne(e, keys', entries');
    WithoutOne(e, keys + keys', entries + entries');
  }

  lemma {:induction false} WithoutTwice(env: Env, keys: set<string>, entries: set<string>, keys': set<string>,
                                        entries': set<string>)
    ensures Without(Without(env, keys, entries), keys', entries') == Without(env, keys + keys', entries + entries')
  {
    if env != [] {
      var first, rest := [env[0]], env[1..];
      assert env == first + rest;
      WithoutTwice(rest, keys, entries, keys', entries');
      WithoutConcat(first, rest, keys, entries);
      WithoutConcat(Without(first, keys, entries), Without(rest, keys, entries), keys', entries');
      WithoutConcat(first, rest, keys + keys', entries + entries');
      WithoutOneTwice(env[0], keys, entries, keys', entries');
    }
  }

  lemma {:induction false} WithoutNothing(env: Env, keys: set<string>, entries: set<string>)
    requires forall e :: e in env ==> EnvKey(e) !in keys && e !in entries
    ensures Without(env, keys, entries) == env
  {
    if env != [] {
      WithoutNothing(env[1..], keys, entries);
    }
  }

  lemma {:induction false} WithoutEverything(env: Env, keys: set<string>, entries: set<string>)
    requires forall e :: e in env ==> EnvKey(e) in keys || e in entries
    ensures Without(env, keys, entries) == []
  {
    if env != [] {
      WithoutEverything(env[1..], keys, entries);
    }
  }

  /** The container's entries win: of the image's, only those under other keys are appended. */
  function MergeEnv(containerEnv: Env, imageEnv: Env): Env {
    containerEnv + Without(imageEnv, EnvKeys(containerEnv), {})
  }

  // ----- the swap -----

  const PROVENANCE_ENV_KEYS: set<string> := {"DWG_VERSION", "DWG_IMAGE_ORIGIN", "NODE_VERSION", "YARN_VERSION"}
  const PROVENANCE_LABEL_PREFIX := "org.opencontainers.image."

  function WithoutInheritedEnv(env: Env, oldImage: Option<ImageConfig>): Env {
    Without(env, PROVENANCE_ENV_KEYS, if oldImage.Some? then Entries(oldImage.value.env) else {})
  }

  predicate Inherits(labels: Labels, key: string, value: string) {
    key in labels && labels[key] == value
  }

  function WithoutInheritedLabels(labels: Labels, oldImage: Option<ImageConfig>): Labels {
    map k | k in labels && !(PROVENANCE_LABEL_PREFIX <= k)
            && !(oldImage.Some? && Inherits(oldImage.value.labels, k, labels[k])) :: labels[k]
  }

  function WithoutInheritedCmd(cmd: Cmd, oldImage: Option<ImageConfig>): Cmd {
    if cmd == None || oldImage == None || oldImage.value.cmd == None then cmd
    else if cmd.value == oldImage.value.cmd.value then None
    else cmd
  }

  function BuildImageSwapSpec(captured: RecreateSpec, oldImage: Option<ImageConfig>,
                              targetImage: string): RecreateSpec {
    captured.(image := targetImage,
              env := WithoutInheritedEnv(captured.env, oldImage),
              labels := WithoutInheritedLabels(captured.labels, oldImage),
              cmd := WithoutInheritedCmd(captured.cmd, oldImage))
  }

  /** A swap whose old image cannot be read takes out what is known to be an image's, and nothing else. */
  lemma UnreadSwap(captured: RecreateSpec, target: string)
    ensures var spec := BuildImageSwapSpec(captured, None, target);
            var provenance := {"DWG_VERSION", "DWG_IMAGE_ORIGIN", "NODE_VERSION", "YARN_VERSION"};
            && spec.env == Without(captured.env, provenance, {})
            && (forall e :: e in spec.env <==> e in captured.env && EnvKey(e) !in provenance)
            && (forall k :: k in spec.labels <==> k in captured.labels && !("org.opencontainers.image." <= k))
            && (forall k :: k in spec.labels ==> spec.labels[k] == captured.labels[k])
            && spec.cmd == captured.cmd && spec.image == target
            && spec.name == captured.name && spec.settings == captured.settings
  {
  }

  lemma EnvKeyIs(key: string, value: string)
    requires '=' !in key
    ensures EnvKey(key + "=" + value) == key && EnvKey(key) == key
  {
    IndexOfIs(key + "=" + value, '=', 0, |key|);
    IndexOfIs(key, '=', 0, |key|);
  }

  // ----- Docker -----

  function ImageOf(images: Images, reference: string): Option<ImageConfig> {
    if reference in images then Some(images[reference]) else None
  }

  /** A container's configuration merged with its image's; an unknown image contributes nothing. */
  function Inspect(images: Images, c: Container): RecreateSpec {
    var config := c.config;
    match ImageOf(images, config.image)
    case None => config
    case Some(image) =>
      config.(env := MergeEnv(config.env, image.env),
              labels := image.labels + config.labels,
              cmd := if config.cmd.Some? then config.cmd else image.cmd)
  }

  /** What a container inspects as: its own configuration, and of its image's what it does not set itself. */
  lemma InspectMerges(images: Images, c: Container)
    ensures var r := Inspect(images, c); var own := c.config;
            && r.name == own.name && r.image == own.image && r.settings == own.settings
            && (own.image !in images ==> r == own)
            && (own.image in images ==>
                  var image := images[own.image];
                  && own.env <= r.env
                  && r.env[|own.env|..] == Without(image.env, EnvKeys(own.env), {})
                  && r.labels.Keys == own.labels.Keys + image.labels.Keys
                  && (forall k :: k in r.labels ==>
                        r.labels[k] == if k in own.labels then own.labels[k] else image.labels[k])
                  && (own.cmd.Some? ==> r.cmd == own.cmd) && (own.cmd == None ==> r.cmd == image.cmd))
  {
  }

  /** Recreating from the captured spec gives a container that inspects the same, order included. */
  lemma RollbackFidelity(images: Images, c: Container, running: bool)
    ensures Inspect(images, Container(Inspect(images, c), running)) == Inspect(images, c)
  {
    if c.config.image in images {
      var image := images[c.config.image];
      MergeTwice(c.config.env, image.env);
    }
  }

  lemma MergeTwice(env: Env, imageEnv: Env)
    ensures MergeEnv(MergeEnv(env, imageEnv), imageEnv) == MergeEnv(env, imageEnv)
  {
    var merged := MergeEnv(env, imageEnv);
    forall e | e in imageEnv ensures EnvKey(e) in EnvKeys(merged) {
      if EnvKey(e) in EnvKeys(env) {
        var f :| f in env && EnvKey(f) == EnvKey(e);
        assert f in merged;
      } else {
        assert e in Without(imageEnv, EnvKeys(env), {});
        assert e in merged;
      }
    }
    WithoutEverything(imageEnv, EnvKeys(merged), {});
  }

  // ----- chains of updates -----

  function Swap(images: Images, c: Container, target: string): Container {
    Container(BuildImageSwapSpec(Inspect(images, c), ImageOf(images, c.config.image), target), true)
  }

  function Swaps(images: Images, c: Container, targets: seq<string>): Container
    decreases |targets|
  {
    if targets == [] then c else Swaps(images, Swap(images, c, targets[0]), targets[1..])
  }

  /** The images a container leaves behind when it is swapped along `targets`. */
  function OldImages(c: Container, targets: seq<string>): seq<string>
    requires targets != []
  {
    [c.config.image] + targets[..|targets| - 1]
  }

  function EntriesOfAll(images: Images, references: seq<string>): set<string>
    requires forall i :: i in references ==> i in images
  {
    set i, e | i in references && e in images[i].env :: e
  }

  predicate LabelIsGenuine(images: Images, references: seq<string>, key: string, value: string)
    requires forall i :: i in references ==> i in images
  {
    !(PROVENANCE_LABEL_PREFIX <= key) && forall i :: i in references ==> !Inherits(images[i].labels, key, value)
  }

  /** A configuration with everything taken out that comes from the images `references`. */
  function Genuine(images: Images, references: seq<string>, config: RecreateSpec): RecreateSpec
    requires forall i :: i in references ==> i in images
  {
    config.(env := Without(config.env, PROVENANCE_ENV_KEYS, EntriesOfAll(images, references)),
            labels := map k | k in config.labels && LabelIsGenuine(images, references, k, config.labels[k])
                        :: config.labels[k],
            cmd := if exists i :: i in references && images[i].cmd == config.cmd then None else config.cmd)
  }

  /** One swap takes out exactly what the old image put in, and the provenance entries. */
  lemma SwapIsGenuine(images: Images, c: Container, target: string)
    requires c.config.image in images
    ensures Swap(images, c, target).config == Genuine(images, [c.config.image], c.config).(image := target)
  {
    var left := [c.config.image];
    var image := images[c.config.image];
    var appended := Without(image.env, EnvKeys(c.config.env), {});
    assert EntriesOfAll(images, left) == Entries(image.env);
    WithoutConcat(c.config.env, appended, PROVENANCE_ENV_KEYS, Entries(image.env));
    WithoutEverything(appended, PROVENANCE_ENV_KEYS, Entries(image.env));
    SwapLabels(images, c, target);
    assert c.config.image in left;
  }

  lemma SwapTakesImage(images: Images, c: Container, target: string)
    ensures Swap(images, c, target).config.image == target
  {
  }

  lemma SwapLabels(images: Images, c: Container, target: string)
    requires c.config.image in images
    ensures Swap(images, c, target).config.labels == Genuine(images, [c.config.image], c.config).labels
  {
    var left := [c.config.image];
    var image := images[c.config.image];
    var merged := image.labels + c.config.labels;
    assert c.config.image in left;
    forall k | k in merged
      ensures k in Swap(images, c, target).config.labels
              <==> k in c.config.labels && LabelIsGenuine(images, left, k, c.config.labels[k])
    {
    }
  }

  /** With the old image unreadable, a swap takes out exactly the provenance. */
  lemma UnreadIsGenuine(images: Images, captured: RecreateSpec, target: string)
    ensures BuildImageSwapSpec(captured, None, target) == Genuine(images, [], captured).(image := target)
  {
    assert EntriesOfAll(images, []) == {};
    assert BuildImageSwapSpec(captured, None, target).labels == Genuine(images, [], captured).labels;
  }

  lemma GenuineTwice(images: Images, a: seq<string>, b: seq<string>, config: RecreateSpec)
    requires forall i :: i in a + b ==> i in images
    requires forall i :: i in a ==> i in images
    requires forall i :: i in b ==> i in images
    ensures Genuine(images, b, Genuine(images, a, config)) == Genuine(images, a + b, config)
  {
    WithoutTwice(config.env, PROVENANCE_ENV_KEYS, EntriesOfAll(images, a), PROVENANCE_ENV_KEYS,
                 EntriesOfAll(images, b));
    assert EntriesOfAll(images, a) + EntriesOfAll(images, b) == EntriesOfAll(images, a + b);
    assert PROVENANCE_ENV_KEYS + PROVENANCE_ENV_KEYS == PROVENANCE_ENV_KEYS;
    GenuineCmdTwice(images, a, b, config);
    var g := Genuine(images, a, config);
    assert Genuine(images, b, g).labels == Genuine(images, a + b, config).labels;
  }

  lemma GenuineOnImage(images: Images, references: seq<string>, config: RecreateSpec, image: string)
    requires forall i :: i in references ==> i in images
    ensures Genuine(images, references, config.(image := image)) == Genuine(images, references, config).(image := image)
  {
    hide Without, EntriesOfAll, LabelIsGenuine;
  }

  lemma GenuineCmdTwice(images: Images, a: seq<string>, b: seq<string>, config: RecreateSpec)
    requires forall i :: i in a + b ==> i in images
    requires forall i :: i in a ==> i in images
    requires forall i :: i in b ==> i in images
    ensures Genuine(images, b, Genuine(images, a, config)).cmd == Genuine(images, a + b, config).cmd
  {
    hide Without, EntriesOfAll, LabelIsGenuine;
    if i :| i in a + b && images[i].cmd == config.cmd {
      assert i in a || i in b;
    } else {
      assert forall i :: i in a ==> i in a + b;
      assert forall i :: i in b ==> i in a + b;
    }
  }

  /**
   * Along any chain of swaps whose old images can be inspected, the container's own
   * configuration is the original one with the provenance entries and everything that
   * one of the images left behind put in, and nothing else, taken out.
   */
  lemma {:induction false} ChainIsGenuine(images: Images, c: Container, targets: seq<string>)
    requires targets != [] && forall i :: i in OldImages(c, targets) ==> i in images
    ensures Swaps(images, c, targets).config
            == Genuine(images, OldImages(c, targets), c.config).(image := targets[|targets| - 1])
    decreases |targets|
  {
    hide Genuine, Swap;
    var next, rest := Swap(images, c, targets[0]), targets[1..];
    var left := [c.config.image];
    assert c.config.image in OldImages(c, targets);
    SwapIsGenuine(images, c, targets[0]);
    if rest == [] {
      assert OldImages(c, targets) == left;
    } else {
      assert next.config.image == targets[0] by { SwapTakesImage(images, c, targets[0]); }
      assert left + OldImages(next, rest) == OldImages(c, targets);
      forall i | i in OldImages(next, rest) ensures i in images {
        assert i in left + OldImages(next, rest);
      }
      ChainIsGenuine(images, next, rest);
      GenuineTwice(images, left, OldImages(next, rest), c.config);
      GenuineOnImage(images, OldImages(next, rest), Genuine(images, left, c.config), targets[0]);
    }
  }

  /** A configuration that names no provenance and repeats nothing of the old images. */
  predicate Clean(images: Images, references: seq<string>, config: RecreateSpec)
    requires forall i :: i in references ==> i in images
  {
    && (forall e :: e in config.env ==> EnvKey(e) !in PROVENANCE_ENV_KEYS && e !in EntriesOfAll(images, references))
    && (forall k :: k in config.labels ==> LabelIsGenuine(images, references, k, config.labels[k]))
    && (config.cmd.Some? ==> forall i :: i in references ==> images[i].cmd != config.cmd)
  }

  /** From a clean configuration, any chain of updates ends where creating it afresh on the last image would. */
  lemma ChainIsFreshCreate(images: Images, c: Container, targets: seq<string>)
    requires targets != [] && forall i :: i in OldImages(c, targets) ==> i in images
    requires Clean(images, OldImages(c, targets), c.config)
    ensures Swaps(images, c, targets).config == c.config.(image := targets[|targets| - 1])
  {
    hide Swaps;
    ChainIsGenuine(images, c, targets);
    CleanIsGenuine(images, OldImages(c, targets), c.config);
  }

  lemma CleanIsGenuine(images: Images, references: seq<string>, config: RecreateSpec)
    requires forall i :: i in references ==> i in images
    requires Clean(images, references, config)
    ensures Genuine(images, references, config) == config
  {
    hide Without, EntriesOfAll, LabelIsGenuine, EnvKey;
    var g := Genuine(images, references, config);
    WithoutNothing(config.env, PROVENANCE_ENV_KEYS, EntriesOfAll(images, references));
    assert g.labels == config.labels;
    assert g.cmd == config.cmd;
  }

  // ----- the version and origin an image was built with -----

  datatype ImageOrigin = Registry | Source

  datatype BakedImageFacts = BakedImageFacts(version: Option<string>, origin: Option<ImageOrigin>)

  const NO_FACTS := BakedImageFacts(None, None)

  predicate AllDigits(s: string) {
    s != "" && forall i :: 0 <= i < |s| ==> '0' <= s[i] <= '9'
  }

  /** Three dot-separated numbers. */
  predicate IsVersion(s: string) {
    var parts := Split(s, '.');
    |parts| == 3 && AllDigits(parts[0]) && AllDigits(parts[1]) && AllDigits(parts[2])
  }

  predicate DecimalDigits(s: string) {
    |s| > 0 && forall c :: c in s ==> c in "0123456789"
  }

  /** A version is exactly three decimal numbers with dots between them. */
  lemma VersionIff(s: string)
    ensures IsVersion(s) <==> exists a, b, c ::
              DecimalDigits(a) && DecimalDigits(b) && DecimalDigits(c) && s == a + "." + b + "." + c
  {
    if IsVersion(s) {
      var parts := Split(s, '.');
      SplitThree(s);
      DigitsAreDecimal(parts[0]);
      DigitsAreDecimal(parts[1]);
      DigitsAreDecimal(parts[2]);
    }
    if a, b, c :| DecimalDigits(a) && DecimalDigits(b) && DecimalDigits(c) && s == a + "." + b + "." + c {
      DigitsAreDecimal(a);
      DigitsAreDecimal(b);
      DigitsAreDecimal(c);
      SplitOfThree(a, b, c);
    }
  }

  lemma DigitsAreDecimal(s: string)
    ensures AllDigits(s) <==> DecimalDigits(s)
    ensures DecimalDigits(s) ==> '.' !in s
  {
    assert forall c: char :: '0' <= c <= '9' <==> c in "0123456789";
    assert forall i :: 0 <= i < |s| ==> s[i] in s;
  }

  lemma SplitFirst(s: string)
    requires |Split(s, '.')| > 1
    ensures var i := IndexOf(s, '.');
            i < |s| && s == s[..i] + "." + s[i + 1..] && Split(s, '.') == [s[..i]] + Split(s[i + 1..], '.')
  {
    var i := IndexOf(s, '.');
    if i < |s| {
      assert s == s[..i] + [s[i]] + s[i + 1..];
    }
  }

  lemma SplitOnly(s: string)
    requires |Split(s, '.')| == 1
    ensures Split(s, '.') == [s]
  {
  }

  lemma SplitThree(s: string)
    requires |Split(s, '.')| == 3
    ensures var parts := Split(s, '.'); s == parts[0] + "." + parts[1] + "." + parts[2]
  {
    hide Split, IndexOf;
    SplitFirst(s);
    var i := IndexOf(s, '.');
    var rest := s[i + 1..];
    SplitFirst(rest);
    var j := IndexOf(rest, '.');
    SplitOnly(rest[j + 1..]);
    assert s[..i] + "." + (rest[..j] + "." + rest[j + 1..]) == s[..i] + "." + rest[..j] + "." + rest[j + 1..];
  }

  lemma SplitOfThree(a: string, b: string, c: string)
    requires '.' !in a && '.' !in b && '.' !in c
    ensures Split(a + "." + b + "." + c, '.') == [a, b, c]
  {
    assert a + "." + b + "." + c == a + ['.'] + (b + ['.'] + c);
    SplitAtHead(a, b + ['.'] + c, '.');
    SplitAtHead(b, c, '.');
    SplitNone(c, '.');
  }

  function ReadFact(facts: BakedImageFacts, entry: string): BakedImageFacts {
    var separator := IndexOf(entry, '=');
    if separator == |entry| then facts
    else
      var key, value := entry[..separator], entry[separator + 1..];
      if key == "DWG_VERSION" && IsVersion(value) then facts.(version := Some(value))
      else if key == "DWG_IMAGE_ORIGIN" && value == "registry" then facts.(origin := Some(Registry))
      else if key == "DWG_IMAGE_ORIGIN" && value == "source" then facts.(origin := Some(Source))
      else facts
  }

  /** The facts of an environment, later entries winning. */
  function Facts(env: Env, facts: BakedImageFacts := NO_FACTS): BakedImageFacts {
    if env == [] then facts else Facts(env[1..], ReadFact(facts, env[0]))
  }

  predicate StatesVersion(entry: string, version: string) {
    entry == "DWG_VERSION" + "=" + version && IsVersion(version)
  }

  predicate StatesOrigin(entry: string, origin: ImageOrigin) {
    entry == "DWG_IMAGE_ORIGIN" + "=" + match origin case Registry => "registry" case Source => "source"
  }

  /** The fact is what its last valid entry states; without one there is none. */
  ghost predicate IsLastStated<T(!new)>(env: Env, states: (string, T) -> bool, fact: Option<T>) {
    match fact
    case None => forall i, x :: 0 <= i < |env| ==> !states(env[i], x)
    case Some(x) =>
      exists i :: 0 <= i < |env| && states(env[i], x) && forall j, y :: i < j < |env| ==> !states(env[j], y)
  }

  lemma FactOfEntry(facts: BakedImageFacts, entry: string)
    ensures var r := ReadFact(facts, entry);
            && (forall v :: StatesVersion(entry, v) ==> r.version == Some(v))
            && (r.version == facts.version || exists v :: StatesVersion(entry, v))
            && (forall o :: StatesOrigin(entry, o) ==> r.origin == Some(o))
            && (r.origin == facts.origin || exists o :: StatesOrigin(entry, o))
  {
    hide IsVersion;
    var separator := IndexOf(entry, '=');
    forall v | StatesVersion(entry, v) ensures ReadFact(facts, entry).version == Some(v) {
      IndexOfIs(entry, '=', 0, |"DWG_VERSION"|);
      assert entry[separator + 1..] == v;
    }
    forall o | StatesOrigin(entry, o) ensures ReadFact(facts, entry).origin == Some(o) {
      IndexOfIs(entry, '=', 0, |"DWG_IMAGE_ORIGIN"|);
      assert entry[separator + 1..] == match o case Registry => "registry" case Source => "source";
    }
    if separator < |entry| {
      var key, value := entry[..separator], entry[separator + 1..];
      assert entry == key + "=" + value;
      assert key == "DWG_VERSION" && IsVersion(value) ==> StatesVersion(entry, value);
      assert key == "DWG_IMAGE_ORIGIN" && value == "registry" ==> StatesOrigin(entry, Registry);
      assert key == "DWG_IMAGE_ORIGIN" && value == "source" ==> StatesOrigin(entry, Source);
    }
  }

  /** Each fact of an environment is what its last valid entry states. */
  lemma {:induction false} LastFactsWin(env: Env)
    ensures IsLastStated(env, StatesVersion, Facts(env).version)
    ensures IsLastStated(env, StatesOrigin, Facts(env).origin)
  {
    hide StatesVersion, StatesOrigin, ReadFact;
    if env != [] {
      var init, last := env[..|env| - 1], env[|env| - 1];
      assert env == init + [last] && [last][1..] == [];
      LastFactsWin(init);
      FactsConcat(init, [last], NO_FACTS);
      FactOfEntry(Facts(init), last);
      assert Facts(env) == ReadFact(Facts(init), last);
      assert forall i :: 0 <= i < |init| ==> init[i] == env[i];
    }
  }

  method ExtractBakedImageFacts(env: Env) returns (facts: BakedImageFacts)
    ensures facts == Facts(env)
    ensures IsLastStated(env, StatesVersion, facts.version) && IsLastStated(env, StatesOrigin, facts.origin)
  {
    LastFactsWin(env);
    facts := NO_FACTS;
    var i := 0;
    while i < |env|
      invariant 0 <= i <= |env|
      invariant Facts(env) == Facts(env[i..], facts)
    {
      facts := ReadFact(facts, env[i]);
      assert env[i..][1..] == env[i + 1..];
      i := i + 1;
    }
  }

  lemma {:induction false} FactsConcat(a: Env, b: Env, facts: BakedImageFacts)
    ensures Facts(a + b, facts) == Facts(b, Facts(a, facts))
    decreases |a|
  {
    if a == [] {
      assert a + b == b;
    } else {
      assert (a + b)[1..] == a[1..] + b;
      FactsConcat(a[1..], b, ReadFact(facts, a[0]));
    }
  }

  /** Taking out keys that state no fact changes no fact. */
  lemma {:induction false} FactsOfOthers(env: Env, keys: set<string>, entries: set<string>, facts: BakedImageFacts)
    requires forall e :: e in env && (EnvKey(e) in keys || e in entries) ==>
             EnvKey(e) != "DWG_VERSION" && EnvKey(e) != "DWG_IMAGE_ORIGIN"
    ensures Facts(Without(env, keys, entries), facts) == Facts(env, facts)
    decreases |env|
  {
    if env != [] {
      var head, rest := Without([env[0]], keys, entries), Without(env[1..], keys, entries);
      WithoutConcat([env[0]], env[1..], keys, entries);
      assert env == [env[0]] + env[1..];
      FactsOfOthers(env[1..], keys, entries, ReadFact(facts, env[0]));
      FactsConcat(head, rest, facts);
      assert env[0] in env;
      if head != [] {
        assert head == [env[0]] && head[1..] == [];
      }
    }
  }

  /** An environment that names neither fact states none. */
  lemma NoFacts(env: Env, facts: BakedImageFacts)
    requires forall e :: e in env ==> EnvKey(e) != "DWG_VERSION" && EnvKey(e) != "DWG_IMAGE_ORIGIN"
    ensures Facts(env, facts) == facts
  {
    FactsOfOthers(env, {}, Entries(env), facts);
    WithoutEverything(env, {}, Entries(env));
  }

  /**
   * After a swap from anything, polluted or with its image gone, the version and origin
   * that the merged environment states are the new image's own.
   */
  lemma Healing(images: Images, captured: RecreateSpec, oldImage: Option<ImageConfig>, target: string, running: bool)
    requires target in images
    ensures var c := Container(BuildImageSwapSpec(captured, oldImage, target), running);
            Facts(Inspect(images, c).env) == Facts(images[target].env)
  {
    var env := WithoutInheritedEnv(captured.env, oldImage);
    var imageEnv := images[target].env;
    assert "DWG_VERSION" in PROVENANCE_ENV_KEYS && "DWG_IMAGE_ORIGIN" in PROVENANCE_ENV_KEYS;
    FactsConcat(env, Without(imageEnv, EnvKeys(env), {}), NO_FACTS);
    NoFacts(env, NO_FACTS);
    FactsOfOthers(imageEnv, EnvKeys(env), {}, NO_FACTS);
  }

  // ----- references -----

  function PanelImageReference(repository: string, version: string): string {
    repository + ":" + version
  }

  function VersionFromReference(reference: string): string {
    reference[LastIndexOf(reference, ':') + 1..]
  }

  /** The version comes back from a composed reference exactly when it holds no colon. */
  lemma VersionRoundTrip(repository: string, version: string)
    ensures VersionFromReference(PanelImageReference(repository, version)) == version <==> ':' !in version
  {
    var reference := PanelImageReference(repository, version);
    var n := |repository|;
    assert reference[n] == ':';
    assert forall i :: 0 <= i < |version| ==> reference[n + 1 + i] == version[i];
    var last := LastIndexOf(reference, ':');
    if ':' !in version {
      assert last == n;
      assert reference[n + 1..] == version;
    } else {
      var i :| 0 <= i < |version| && version[i] == ':';
      assert reference[n + 1 + i] == ':';
      assert last >= n + 1 + i;
    }
  }
}
