/** The registry provider and the cleanup control its whole clone family shares. */
module ProviderFamily {
  import opened PathText
  import opened CleanupControl
  import opened TempLifecycle
  import opened Resolution

  /** The facade keeps the control it was assembled with; cloning it shares that control. */
  datatype FileSystem = FileSystem(control: LocalTempCleanupControl)

  datatype Mode = Host | Rooted(fileSystem: FileSystem)

  datatype CreationError = Undecodable(error: ProviderError) | InitializationFailed

  datatype FileSystemResolution = FileSystemResolution(fileSystem: FileSystem, resolved: Resolved)

  class LocalFileSystemProvider {
    const mode: Mode
    /** The once-set cell; `null` until its first use. */
    var once: LocalTempCleanupControl?

    ghost predicate Valid()
      reads this
    {
      mode.Rooted? ==> once == mode.fileSystem.control
    }

    constructor Host()
      ensures Valid() && once == null && mode == Mode.Host
    {
      mode, once := Mode.Host, null;
    }

    /** The retained file system and the provider are built from one new control. */
    constructor Rooted()
      ensures Valid() && mode.Rooted? && once != null && fresh(once)
    {
      var control := new LocalTempCleanupControl(None);
      var shared := control.Clone();
      mode, once := Mode.Rooted(FileSystem(shared)), control;
    }

    constructor FromParts(mode: Mode, control: LocalTempCleanupControl)
      ensures this.mode == mode && once == control
    {
      this.mode, once := mode, control;
    }

    method TempCleanupControl() returns (control: LocalTempCleanupControl)
      requires Valid()
      modifies this`once
      ensures Valid() && control == once
      ensures old(once) != null ==> once == old(once)
      ensures old(once) == null ==> fresh(once) && control.current == None
    {
      if once == null {
        once := new LocalTempCleanupControl(None);
      }
      control := once.Clone();
    }

    /** Cloning initializes the cell first, so that both sides hold the same control. */
    method Clone() returns (clone: LocalFileSystemProvider)
      requires Valid()
      modifies this`once
      ensures Valid() && clone.Valid() && fresh(clone)
      ensures once != null && clone.once == once && clone.mode == mode
      ensures old(once) != null ==> once == old(once)
      ensures old(once) == null ==> fresh(once)
    {
      var control := TempCleanupControl();
      clone := new LocalFileSystemProvider.FromParts(mode, control);
    }

    /** `opens` and `assembles` say whether the native parts can be built. */
    method CreateConfigured(config: FileSystemConfig, platform: Platform, opens: bool, assembles: bool)
      returns (r: Result<FileSystemResolution, CreationError>)
      requires Valid()
      modifies this`once
      ensures Valid()
      ensures old(once) != null ==> once == old(once)
      ensures old(once) == null ==> once == null || fresh(once)
      ensures match DecodeConfig(config, platform)
              case Err(e) => r == Err(Undecodable(e)) && once == old(once)
              case Ok(resolved) =>
                && once != null
                && (r.Ok? <==> assembles && (opens || mode.Rooted?))
                && (r.Ok? ==> r.value == FileSystemResolution(FileSystem(once), resolved))
                && (r.Err? ==> r.error == InitializationFailed)
    {
      var decoded := DecodeConfig(config, platform);
      if decoded.Err? {
        return Err(Undecodable(decoded.error));
      }
      var fileSystem: FileSystem;
      match mode {
        case Host =>
          var control := TempCleanupControl();
          if !opens {
            return Err(InitializationFailed);
          }
          fileSystem := FileSystem(control);
        case Rooted(retained) =>
          fileSystem := retained;
      }
      if !assembles {
        return Err(InitializationFailed);
      }
      return Ok(FileSystemResolution(fileSystem, decoded.value));
    }
  }

  datatype TempCreationError = ParentUnmapped | CreationFailed | PathUnexpressible

  /**
   * Directories take over the control of the file system that creates them. The
   * requested parent may have no native form, native creation may fail (`native` is
   * then `None`), and the created path may have no logical form.
   */
  method CreateTempDirectory(
    fileSystem: FileSystem, parentConverts: bool, native: Option<NativeTemp>, pathConverts: bool, authority: Authority)
    returns (r: Result<LocalTempResourceSpi, TempCreationError>)
    ensures r.Ok? <==> parentConverts && native.Some? && pathConverts
    ensures r.Err? ==> r.error == if !parentConverts then ParentUnmapped
                                  else if native.None? then CreationFailed
                                  else PathUnexpressible
    ensures r.Ok? ==>
              var directory := r.value;
              && fresh(directory) && directory.kind == Directory
              && directory.authority == authority
              && directory.control == fileSystem.control
              && directory.resource == Some(native.value.(limits := Native(fileSystem.control.current)))
  {
    if !parentConverts {
      return Err(ParentUnmapped);
    }
    var limits := fileSystem.control.Limits();
    if native.None? {
      return Err(CreationFailed);
    }
    if !pathConverts {
      return Err(PathUnexpressible);
    }
    var control := fileSystem.control.Clone();
    var directory := new LocalTempResourceSpi.FromDirectory(
      native.value.(limits := Native(limits)), authority, control);
    return Ok(directory);
  }

  // ---- Any order of use of one family ----

  datatype Use =
    | CloneOf(provider: nat)
    | Access(provider: nat)
    | Resolve(provider: nat, config: FileSystemConfig, opens: bool, assembles: bool)
    | CreateDirectory(
        fileSystem: nat, parentConverts: bool, native: Option<NativeTemp>, pathConverts: bool, authority: Authority)
    | SetThrough(handle: nat, limits: Option<Limits>)

  /** Everything a family has handed out so far. */
  class Family {
    const root: LocalFileSystemProvider
    var providers: seq<LocalFileSystemProvider>
    var fileSystems: seq<FileSystem>
    var directories: seq<LocalTempResourceSpi>
    var handles: seq<LocalTempCleanupControl>

    /** All parts hold the root's control; before it exists the root is alone. */
    ghost predicate OneControl()
      reads this, root, providers
    {
      && root in providers
      && (root.once == null ==>
            providers == [root] && fileSystems == [] && directories == [] && handles == [])
      && (forall p :: p in providers ==> p.Valid() && p.once == root.once)
      && (forall f :: f in fileSystems ==> f.control == root.once)
      && (forall d :: d in directories ==> d.control == root.once)
      && (forall h :: h in handles ==> h == root.once)
    }

    constructor (root: LocalFileSystemProvider)
      requires root.Valid()
      ensures this.root == root && OneControl() && fresh(this)
      ensures forall p :: p in providers ==> p == root
    {
      this.root, providers, fileSystems, directories, handles := root, [root], [], [], [];
    }

    /** One use of any member; an index that names nothing changes nothing. */
    method Apply(use: Use, platform: Platform)
      requires OneControl()
      modifies this, set p | p in providers, set h | h in handles
      ensures OneControl()
      ensures old(root.once) != null ==> root.once == old(root.once)
      ensures forall p :: p in providers ==> p in old(providers) || fresh(p)
      ensures forall h :: h in handles ==> h in old(handles) || h == old(root.once) || fresh(h)
      ensures old(root.once) == null ==> root.once == null || fresh(root.once)
      ensures use.SetThrough? && use.handle < |old(handles)| ==> root.once.current == use.limits
      ensures |providers| == |old(providers)| + if use.CloneOf? && use.provider < |old(providers)| then 1 else 0
      ensures |handles| == |old(handles)| + if use.Access? && use.provider < |old(providers)| then 1 else 0
      ensures |fileSystems| > |old(fileSystems)| <==>
                && use.Resolve? && use.provider < |old(providers)| && DecodeConfig(use.config, platform).Ok?
                && use.assembles && (use.opens || old(providers)[use.provider].mode.Rooted?)
      ensures |directories| > |old(directories)| <==>
                && use.CreateDirectory? && use.fileSystem < |old(fileSystems)|
                && use.parentConverts && use.native.Some? && use.pathConverts
      ensures old(providers) <= providers && old(handles) <= handles
      ensures old(fileSystems) <= fileSystems && old(directories) <= directories
    {
      match use
      case CloneOf(i) =>
        if i < |providers| {
          var clone := providers[i].Clone();
          providers := providers + [clone];
        }
      case Access(i) =>
        if i < |providers| {
          var control := providers[i].TempCleanupControl();
          handles := handles + [control];
        }
      case Resolve(i, config, opens, assembles) =>
        if i < |providers| {
          var r := providers[i].CreateConfigured(config, platform, opens, assembles);
          if r.Ok? {
            fileSystems := fileSystems + [r.value.fileSystem];
          }
        }
      case CreateDirectory(i, parentConverts, native, pathConverts, authority) =>
        if i < |fileSystems| {
          var r := CreateTempDirectory(fileSystems[i], parentConverts, native, pathConverts, authority);
          if r.Ok? {
            directories := directories + [r.value];
          }
        }
      case SetThrough(i, limits) =>
        if i < |handles| {
          assert handles[i] in handles;
          handles[i].SetLimits(limits);
        }
    }
  }

  /**
   * In whatever order the members of a family are cloned, asked for their control,
   * resolved and used, everything handed out reads one and the same control.
   */
  method UseFamily(root: LocalFileSystemProvider, script: seq<Use>, platform: Platform) returns (family: Family)
    requires root.Valid()
    modifies root, if root.once == null then {} else {root.once}
    ensures family.root == root && family.OneControl()
    ensures old(root.once) != null ==> root.once == old(root.once)
  {
    family := new Family(root);
    for i := 0 to |script|
      invariant family.root == root && fresh(family) && family.OneControl()
      invariant forall p :: p in family.providers ==> p == root || fresh(p)
      invariant old(root.once) != null ==> root.once == old(root.once)
      invariant old(root.once) == null && root.once != null ==> fresh(root.once)
      invariant forall h :: h in family.handles ==> h == old(root.once) || fresh(h)
    {
      family.Apply(script[i], platform);
    }
  }
}
