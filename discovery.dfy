/** Controller discovery and selection of acpilight/brightness.py:
    get_controllers builds an insertion-ordered mapping from the names listed
    under each base directory to their paths, and make_controller picks one
    of them and opens its files. The file system is an input: `listings`
    maps a directory to its entries (os.listdir), `files` maps a file path
    to its text. */
module Discovery {
  import opened Outcomes
  import opened Decimal
  import opened Brightness

  /** CONTROLLERS_PATH of acpilight/constants.py, scanned in this order. */
  const ControllersPath: seq<string> := ["/sys/class/backlight", "/sys/class/leds"]

  /** MAXIMUM_BRIGHTNESS_FILE and BRIGHTNESS_FILE of acpilight/constants.py. */
  const MaximumBrightnessFile: string := "max_brightness"
  const BrightnessFile: string := "brightness"

  /** os.path.join(base, name) for a base without a trailing '/' and a
      relative name. */
  function Join(base: string, name: string): string
  {
    base + "/" + name
  }

  /** An OrderedDict from controller names to paths: the names in insertion
      order, and the mapping itself. */
  datatype Registry = Registry(names: seq<string>, paths: map<string, string>) {

    /** The names are distinct and are exactly the keys of the mapping. */
    ghost predicate Valid()
    {
      && (forall i, j :: 0 <= i < j < |names| ==> names[i] != names[j])
      && (forall n :: n in paths <==> n in names)
    }

    /** controllers.values(): the paths in insertion order. */
    function Values(): (vs: seq<string>)
      requires Valid()
      ensures |vs| == |names|
      ensures forall i :: 0 <= i < |names| ==> vs[i] == paths[names[i]]
    {
      seq(|names|, i requires 0 <= i < |names| => paths[names[i]])
    }

    /** controllers[name] = path: a new name goes last, a known one keeps
        its place and takes the new path. */
    function Put(name: string, path: string): (r: Registry)
      requires Valid()
      ensures r.Valid()
      ensures r.names == if name in names then names else names + [name]
      ensures r.paths == paths[name := path]
      ensures name in r.paths && r.paths[name] == path
    {
      if name in paths then Registry(names, paths[name := path])
      else Registry(names + [name], paths[name := path])
    }
  }

  const EmptyRegistry: Registry := Registry([], map[])

  /** The inner loop of get_controllers: every entry of one base directory
      put in turn. */
  function PutAll(registry: Registry, base: string, entries: seq<string>): (r: Registry)
    requires registry.Valid()
    ensures r.Valid()
  {
    if entries == [] then registry
    else PutAll(registry, base, entries[..|entries| - 1]).Put(entries[|entries| - 1], Join(base, entries[|entries| - 1]))
  }

  /** get_controllers over the given base directories: a base that cannot be
      listed raises FileNotFoundError. */
  function Discover(bases: seq<string>, listings: map<string, seq<string>>): (r: Result<Registry>)
    ensures r.Success? ==> r.value.Valid()
  {
    if bases == [] then Success(EmptyRegistry)
    else
      match Discover(bases[..|bases| - 1], listings)
      case Failure(e) => Failure(e)
      case Success(registry) =>
        var base := bases[|bases| - 1];
        if base in listings then Success(PutAll(registry, base, listings[base]))
        else Failure(FileNotFoundError)
  }

  // Reference definitions for what discovery computes.

  /** Every name listed, base after base, repetitions included. */
  function Listed(bases: seq<string>, listings: map<string, seq<string>>): seq<string>
  {
    if bases == [] then []
    else
      Listed(bases[..|bases| - 1], listings)
      + (if bases[|bases| - 1] in listings then listings[bases[|bases| - 1]] else [])
  }

  /** `seen` followed by the elements of s not seen before, each at its
      first occurrence. */
  function AddNew(seen: seq<string>, s: seq<string>): seq<string>
  {
    if s == [] then seen
    else
      var r := AddNew(seen, s[..|s| - 1]);
      if s[|s| - 1] in r then r else r + [s[|s| - 1]]
  }

  /** The distinct elements of s in order of first occurrence. */
  function FirstOccurrences(s: seq<string>): seq<string>
  {
    AddNew([], s)
  }

  /** The last of the bases whose listing holds the name. */
  function LastBase(bases: seq<string>, listings: map<string, seq<string>>, name: string): Option<string>
  {
    if bases == [] then None
    else
      var base := bases[|bases| - 1];
      if base in listings && name in listings[base] then Some(base)
      else LastBase(bases[..|bases| - 1], listings, name)
  }

  lemma {:induction false} AddNewConcat(seen: seq<string>, s: seq<string>, t: seq<string>)
    ensures AddNew(seen, s + t) == AddNew(AddNew(seen, s), t)
    decreases |t|
  {
    if t != [] {
      assert (s + t)[..|s + t| - 1] == s + t[..|t| - 1];
      AddNewConcat(seen, s, t[..|t| - 1]);
    } else {
      assert s + t == s;
    }
  }

  /** Putting a directory's entries appends the names not yet present, in
      listing order. */
  lemma {:induction false} PutAllNames(registry: Registry, base: string, entries: seq<string>)
    requires registry.Valid()
    ensures PutAll(registry, base, entries).names == AddNew(registry.names, entries)
  {
    if entries != [] {
      var prefix := entries[..|entries| - 1];
      PutAllNames(registry, base, prefix);
      var before := PutAll(registry, base, prefix);
      assert before.names == AddNew(registry.names, prefix);
      assert entries[|entries| - 1] in before.names <==> entries[|entries| - 1] in before.paths;
    }
  }

  /** Putting a directory's entries adds exactly the listed names. */
  lemma {:induction false} PutAllDomain(registry: Registry, base: string, entries: seq<string>)
    requires registry.Valid()
    ensures forall n :: n in PutAll(registry, base, entries).paths <==> n in registry.paths || n in entries
  {
    if entries != [] {
      var prefix := entries[..|entries| - 1];
      var last := entries[|entries| - 1];
      PutAllDomain(registry, base, prefix);
      var before := PutAll(registry, base, prefix);
      var after := PutAll(registry, base, entries);
      assert after.paths.Keys == before.paths.Keys + {last};
      forall n
        ensures n in after.paths <==> n in registry.paths || n in entries
      {
        assert n in entries <==> n in prefix || n == last by {
          assert entries == prefix + [last];
        }
      }
    }
  }

  /** Putting a directory's entries points every listed name at this
      directory and leaves the other names' paths. */
  lemma {:induction false} PutAllPaths(registry: Registry, base: string, entries: seq<string>)
    requires registry.Valid()
    ensures forall n :: n in entries ==>
      n in PutAll(registry, base, entries).paths && PutAll(registry, base, entries).paths[n] == Join(base, n)
    ensures forall n :: n !in entries && n in registry.paths ==>
      n in PutAll(registry, base, entries).paths && PutAll(registry, base, entries).paths[n] == registry.paths[n]
  {
    if entries != [] {
      var prefix := entries[..|entries| - 1];
      var last := entries[|entries| - 1];
      PutAllPaths(registry, base, prefix);
      var before := PutAll(registry, base, prefix);
      var after := PutAll(registry, base, entries);
      assert after.paths == before.paths[last := Join(base, last)];
      assert entries == prefix + [last];
      forall n | n in entries
        ensures n in after.paths && after.paths[n] == Join(base, n)
      {
        if n != last {
          assert n in prefix;
        }
      }
    }
  }

  /** What get_controllers promises when every base can be listed: the names
      in order of first listing, each mapped to its path under the last base
      that lists it, and no other names. */
  lemma {:induction false} DiscoverCorrect(bases: seq<string>, listings: map<string, seq<string>>)
    requires Discover(bases, listings).Success?
    ensures var registry := Discover(bases, listings).value;
      && registry.names == FirstOccurrences(Listed(bases, listings))
      && (forall n :: n in registry.paths <==> n in Listed(bases, listings))
      && (forall n :: n in registry.paths ==>
            LastBase(bases, listings, n).Some? && registry.paths[n] == Join(LastBase(bases, listings, n).value, n))
  {
    if bases != [] {
      var prefix := bases[..|bases| - 1];
      var base := bases[|bases| - 1];
      DiscoverCorrect(prefix, listings);
      var before := Discover(prefix, listings).value;
      PutAllNames(before, base, listings[base]);
      PutAllDomain(before, base, listings[base]);
      PutAllPaths(before, base, listings[base]);
      AddNewConcat([], Listed(prefix, listings), listings[base]);
    }
  }

  /** get_controllers fails exactly when some base cannot be listed. */
  lemma {:induction false} DiscoverFails(bases: seq<string>, listings: map<string, seq<string>>)
    ensures Discover(bases, listings).Failure? <==> exists i :: 0 <= i < |bases| && bases[i] !in listings
    ensures Discover(bases, listings).Failure? ==> Discover(bases, listings).error == FileNotFoundError
  {
    if bases != [] {
      var prefix := bases[..|bases| - 1];
      DiscoverFails(prefix, listings);
      if exists i :: 0 <= i < |prefix| && prefix[i] !in listings {
        var i :| 0 <= i < |prefix| && prefix[i] !in listings;
        assert bases[i] !in listings;
      }
      if exists i :: 0 <= i < |bases| && bases[i] !in listings {
        var i :| 0 <= i < |bases| && bases[i] !in listings;
        if i < |prefix| { assert prefix[i] !in listings; }
      }
    }
  }

  /** Once a prefix of the bases fails, the whole scan fails the same way. */
  lemma {:induction false} DiscoverFailurePersists(bases: seq<string>, k: nat, listings: map<string, seq<string>>)
    requires k <= |bases| && Discover(bases[..k], listings).Failure?
    ensures Discover(bases, listings) == Discover(bases[..k], listings)
    decreases |bases| - k
  {
    if k < |bases| {
      var prefix := bases[..|bases| - 1];
      assert prefix[..k] == bases[..k];
      DiscoverFailurePersists(prefix, k, listings);
    } else {
      assert bases[..k] == bases;
    }
  }

  /** get_controllers: for each base of CONTROLLERS_PATH, for each entry of
      its listing, controllers[entry] = join(base, entry). */
  method GetControllers(listings: map<string, seq<string>>) returns (r: Result<Registry>)
    ensures r == Discover(ControllersPath, listings)
  {
    var controllers := EmptyRegistry;
    var i := 0;
    while i < |ControllersPath|
      invariant 0 <= i <= |ControllersPath|
      invariant Discover(ControllersPath[..i], listings) == Success(controllers)
    {
      var path := ControllersPath[i];
      assert ControllersPath[..i + 1][..i] == ControllersPath[..i];
      if path !in listings {
        DiscoverFailurePersists(ControllersPath, i + 1, listings);
        return Failure(FileNotFoundError);
      }
      var entries := listings[path];
      var before := controllers;
      var j := 0;
      while j < |entries|
        invariant 0 <= j <= |entries|
        invariant controllers == PutAll(before, path, entries[..j])
      {
        var name := entries[j];
        assert entries[..j + 1][..j] == entries[..j];
        controllers := controllers.Put(name, Join(path, name));
        j := j + 1;
      }
      assert entries[..j] == entries;
      i := i + 1;
    }
    assert ControllersPath[..i] == ControllersPath;
    r := Success(controllers);
  }

  /** The selection of make_controller: a requested value must be one of the
      discovered paths (otherwise the program exits with status 1); the
      default, tuple(controllers.values())[0], is computed before the lookup
      and raises IndexError when nothing was discovered; the lookup is by
      name and falls back to that default. */
  function SelectPath(name: Option<string>, controllers: Registry): (r: Result<string>)
    requires controllers.Valid()
    ensures r == Failure(SystemExit(1)) <==> name.Some? && name.value !in controllers.Values()
    ensures controllers.names == [] ==> r.Failure?
    ensures name.None? && controllers.names == [] ==> r == Failure(IndexError)
    ensures r.Success? ==> r.value in controllers.Values()
    ensures name.None? && controllers.names != [] ==> r == Success(controllers.Values()[0])
    // the check is against the paths, but the lookup is by key
    ensures name.Some? && name.value in controllers.Values() ==>
      r == Success(if name.value in controllers.paths then controllers.paths[name.value] else controllers.Values()[0])
  {
    var values := controllers.Values();
    if name.Some? && name.value !in values then Failure(SystemExit(1))
    else if |values| == 0 then Failure(IndexError)
    else if name.Some? && name.value in controllers.paths then Success(controllers.paths[name.value])
    else Success(values[0])
  }

  /** Every discovered path has a '/' in it. */
  lemma DiscoveredPathsHaveSlash(bases: seq<string>, listings: map<string, seq<string>>)
    requires Discover(bases, listings).Success?
    ensures var registry := Discover(bases, listings).value;
      forall p :: p in registry.Values() ==> '/' in p
  {
    DiscoverCorrect(bases, listings);
    var registry := Discover(bases, listings).value;
    forall p | p in registry.Values()
      ensures '/' in p
    {
      var i :| 0 <= i < |registry.names| && registry.Values()[i] == p;
      var n := registry.names[i];
      var base := LastBase(bases, listings, n).value;
      assert p == base + "/" + n;
      assert p[|base|] == '/';
    }
  }

  /** As written, asking for a controller by its name (which has no '/', as
      no directory entry does) always ends in exit status 1, since names are
      checked against the paths. */
  lemma SelectByNameExits(bases: seq<string>, listings: map<string, seq<string>>, name: string)
    requires Discover(bases, listings).Success?
    requires '/' !in name
    ensures SelectPath(Some(name), Discover(bases, listings).value) == Failure(SystemExit(1))
  {
    DiscoveredPathsHaveSlash(bases, listings);
  }

  /** As written, asking for a controller by one of its paths passes the
      check but finds no such name, so the first controller is chosen
      whatever path was given (when no listed name holds a '/'). */
  lemma SelectByPathGivesDefault(bases: seq<string>, listings: map<string, seq<string>>, path: string)
    requires Discover(bases, listings).Success?
    requires forall b, n :: b in listings && n in listings[b] ==> '/' !in n
    requires path in Discover(bases, listings).value.Values()
    ensures SelectPath(Some(path), Discover(bases, listings).value) == Success(Discover(bases, listings).value.Values()[0])
  {
    DiscoverCorrect(bases, listings);
    DiscoveredPathsHaveSlash(bases, listings);
    var registry := Discover(bases, listings).value;
    if path in registry.paths {
      ListedNamesHaveNoSlash(bases, listings, path);
    }
  }

  lemma {:induction false} ListedNamesHaveNoSlash(bases: seq<string>, listings: map<string, seq<string>>, n: string)
    requires forall b, m :: b in listings && m in listings[b] ==> '/' !in m
    requires n in Listed(bases, listings)
    ensures '/' !in n
  {
    if bases != [] {
      var base := bases[|bases| - 1];
      if n !in Listed(bases[..|bases| - 1], listings) {
        assert base in listings && n in listings[base];
      } else {
        ListedNamesHaveNoSlash(bases[..|bases| - 1], listings, n);
      }
    }
  }

  /** The files make_controller reads: discovery, selection, then the
      max_brightness file opened for reading and the brightness file opened
      for writing, each of which must exist; the result is the pair of their
      texts. */
  function ControllerFiles(name: Option<string>, listings: map<string, seq<string>>, files: map<string, string>)
    : (r: Result<(string, string)>)
    ensures Discover(ControllersPath, listings).Failure? ==> r == Failure(FileNotFoundError)
    ensures Discover(ControllersPath, listings).Success? ==>
      var sel := SelectPath(name, Discover(ControllersPath, listings).value);
      var present := sel.Success? && Join(sel.value, BrightnessFile) in files && Join(sel.value, MaximumBrightnessFile) in files;
      && (sel.Failure? ==> r == Failure(sel.error))
      && (sel.Success? && !present ==> r == Failure(FileNotFoundError))
      && (present ==> r.Success?)
    ensures r.Success? ==>
      && Discover(ControllersPath, listings).Success?
      && var controllers := Discover(ControllersPath, listings).value;
      && SelectPath(name, controllers).Success?
      && var path := SelectPath(name, controllers).value;
      && path in controllers.Values()
      && Join(path, BrightnessFile) in files && Join(path, MaximumBrightnessFile) in files
      && r.value == (files[Join(path, BrightnessFile)], files[Join(path, MaximumBrightnessFile)])
  {
    match Discover(ControllersPath, listings)
    case Failure(e) =>
      DiscoverFails(ControllersPath, listings);
      Failure(e)
    case Success(controllers) =>
      match SelectPath(name, controllers)
      case Failure(e) => Failure(e)
      case Success(path) =>
        var maximum := Join(path, MaximumBrightnessFile);
        var brightness := Join(path, BrightnessFile);
        if maximum !in files || brightness !in files then Failure(FileNotFoundError)
        else Success((files[brightness], files[maximum]))
  }

  /** make_controller: a controller over the selected device's files, or
      the error that discovery, selection, opening or parsing the maximum
      ended with. */
  method MakeController(name: Option<string>, listings: map<string, seq<string>>, files: map<string, string>)
      returns (r: Result<Controller>)
    ensures var found := ControllerFiles(name, listings, files);
      && (found.Failure? ==> r == Failure(found.error))
      && (found.Success? && ParseInt(found.value.1).None? ==> r == Failure(ValueError))
      && (found.Success? && ParseInt(found.value.1).Some? ==>
            && r.Success? && fresh(r.value)
            && r.value.brightnessFile == found.value.0
            && r.value.maxBrightness == ParseInt(found.value.1).value)
  {
    var controllers := GetControllers(listings);
    if controllers.Failure? {
      return Failure(controllers.error);
    }
    var controller := SelectPath(name, controllers.value);
    if controller.Failure? {
      return Failure(controller.error);
    }
    var maximum := Join(controller.value, MaximumBrightnessFile);
    var brightness := Join(controller.value, BrightnessFile);
    if maximum !in files || brightness !in files {
      return Failure(FileNotFoundError);
    }
    r := Controller.Create(files[brightness], files[maximum]);
  }

  /** Listings in which both bases list `a` and the first also lists `b`,
      as with acpi_video0 and intel_backlight. */
  function ExampleListings(a: string, b: string): map<string, seq<string>>
  {
    map["/sys/class/backlight" := [a, b], "/sys/class/leds" := [a]]
  }

  lemma BacklightOfExample(a: string, b: string)
    requires a != b
    ensures Discover(ControllersPath[..1], ExampleListings(a, b))
         == Success(EmptyRegistry.Put(a, Join(ControllersPath[0], a)).Put(b, Join(ControllersPath[0], b)))
  {
    var backlight := ControllersPath[0];
    var first := EmptyRegistry.Put(a, Join(backlight, a));
    assert PutAll(EmptyRegistry, backlight, [a]) == first by {
      assert [a][..0] == [];
    }
    var second := first.Put(b, Join(backlight, b));
    assert PutAll(EmptyRegistry, backlight, [a, b]) == second by {
      assert [a, b][..1] == [a];
    }
    assert ControllersPath[..1][..0] == [];
  }

  lemma RegistryOfExample(a: string, b: string)
    requires a != b
    ensures Discover(ControllersPath, ExampleListings(a, b))
         == Success(EmptyRegistry.Put(a, Join(ControllersPath[0], a)).Put(b, Join(ControllersPath[0], b))
                                 .Put(a, Join(ControllersPath[1], a)))
  {
    BacklightOfExample(a, b);
    var second := EmptyRegistry.Put(a, Join(ControllersPath[0], a)).Put(b, Join(ControllersPath[0], b));
    var third := second.Put(a, Join(ControllersPath[1], a));
    assert PutAll(second, ControllersPath[1], [a]) == third by {
      assert [a][..0] == [];
    }
  }

  /** Two bases both list a name `a`, the first one also a later name `b`:
      `a` keeps its first place but takes the path under the later base,
      and the default controller is that path. */
  lemma DiscoveryExample(a: string, b: string)
    requires a != b
    ensures var r := Discover(ControllersPath, ExampleListings(a, b));
      && r.Success?
      && r.value.names == [a, b]
      && r.value.paths[a] == Join("/sys/class/leds", a)
      && r.value.paths[b] == Join("/sys/class/backlight", b)
      && SelectPath(None, r.value) == Success(Join("/sys/class/leds", a))
  {
    var backlight := ControllersPath[0];
    var leds := ControllersPath[1];
    RegistryOfExample(a, b);
    var second := EmptyRegistry.Put(a, Join(backlight, a)).Put(b, Join(backlight, b));
    assert second.names == [a, b];
    var third := second.Put(a, Join(leds, a));
    assert third.paths[b] == Join(backlight, b);
    assert third.Values()[0] == third.paths[a];
  }
}
