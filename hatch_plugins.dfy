/** The build hook that turns a plugin's parsed `plugin_info.toml` into package metadata and
    entry points. */
module HatchPlugins {
  import opened Wrappers

  /** The parsed TOML: the `plugin-info` and `plugin-install` tables, and the optional
      `features` table of flags. */
  datatype PluginInfo = PluginInfo(
    shortName: string,
    author: string,
    authorEmail: string,
    description: string,
    packageUrl: string,
    packagesRequired: seq<string>,
    features: Option<map<string, bool>>)

  /** The entry-point groups the hook knows; `GroupName` gives each one's key. */
  datatype Group = Instruments | Extensions | PidModels | Models | H5Exporters | Scanners | Plugins

  /** The feature flag behind a group (`plugins` for the generic group, which has none). */
  function FlagName(g: Group): string
  {
    match g
    case Instruments => "instruments"
    case Extensions => "extensions"
    case PidModels => "pid_models"
    case Models => "models"
    case H5Exporters => "h5exporters"
    case Scanners => "scanners"
    case Plugins => "plugins"
  }

  /** The entry-point group as the metadata spells it: `pymodaq.` and the flag's name. */
  function GroupName(g: Group): string
  {
    "pymodaq." + FlagName(g)
  }

  /** The kinds of value the hook writes into the metadata dict. */
  datatype MetaValue =
    | Text(s: string)
    | Names(names: seq<string>)
    | Authors(people: seq<(string, string)>)        // (name, email) records
    | Urls(urls: map<string, string>)
    | EntryPoints(groups: map<Group, map<string, string>>)

  const PREFIX: string := "pymodaq_plugins_"

  /** `PLUGIN_NAME`: the package name derived from the short name. */
  function PluginName(short: string): string
  {
    PREFIX + short
  }

  /** `features.get(name, False)`: an absent flag is off. */
  predicate Enabled(features: map<string, bool>, name: string)
  {
    name in features && features[name]
  }

  const ALL_GROUPS: set<Group> := {Instruments, Extensions, PidModels, Models, H5Exporters, Scanners, Plugins}

  lemma InAllGroups(g: Group)
    ensures g in ALL_GROUPS
  {
    match g
    case Instruments =>
    case Extensions =>
    case PidModels =>
    case Models =>
    case H5Exporters =>
    case Scanners =>
    case Plugins =>
  }

  /** Whether a plugin declares group `g`: `pymodaq.plugins` always; then every enabled
      feature's group or, with no `features` table, `pymodaq.instruments`. */
  predicate Declares(features: Option<map<string, bool>>, g: Group)
  {
    match features
    case None => g == Instruments || g == Plugins
    case Some(fs) => g == Plugins || Enabled(fs, FlagName(g))
  }

  function DeclaredGroups(features: Option<map<string, bool>>): set<Group>
  {
    set g | g in ALL_GROUPS && Declares(features, g)
  }

  /** The entry points a plugin declares: the generic group is always there, and every group
      maps the short name, and nothing else, to `pymodaq_plugins_` followed by the short name. */
  function DeclaredEntryPoints(info: PluginInfo): (r: map<Group, map<string, string>>)
    ensures Plugins in r
    ensures forall g | g in r :: r[g].Keys == {info.shortName} && r[g][info.shortName] == PREFIX + info.shortName
  {
    assert Plugins in DeclaredGroups(info.features) by { InAllGroups(Plugins); }
    map g | g in DeclaredGroups(info.features) :: map[info.shortName := PluginName(info.shortName)]
  }

  /** The entry points of `update_metadata_from_toml`, built one conditional at a time. */
  method BuildEntryPoints(info: PluginInfo) returns (eps: map<Group, map<string, string>>)
    ensures eps == DeclaredEntryPoints(info)
  {
    var entry := map[info.shortName := PluginName(info.shortName)];
    eps := map[];
    if info.features.Some? {
      var fs := info.features.value;
      if Enabled(fs, "instruments") {
        eps := eps[Instruments := entry];
      }
      if Enabled(fs, "extensions") {
        eps := eps[Extensions := entry];
      }
      if Enabled(fs, "pid_models") {
        eps := eps[PidModels := entry];
      }
      if Enabled(fs, "models") {
        eps := eps[Models := entry];
      }
      if Enabled(fs, "h5exporters") {
        eps := eps[H5Exporters := entry];
      }
      if Enabled(fs, "scanners") {
        eps := eps[Scanners := entry];
      }
    } else {
      eps := eps[Instruments := entry];
    }
    eps := eps[Plugins := entry];
    DeclaredEntryPointsAre(info, eps);
  }

  /** The seven membership facts, one per group, pin the declared entry points down. */
  lemma DeclaredEntryPointsAre(info: PluginInfo, eps: map<Group, map<string, string>>)
    requires Plugins in eps
    requires info.features.None? ==>
               Instruments in eps && Extensions !in eps && PidModels !in eps && Models !in eps &&
               H5Exporters !in eps && Scanners !in eps
    requires info.features.Some? ==>
               var fs := info.features.value;
               (Instruments in eps <==> Enabled(fs, "instruments")) &&
               (Extensions in eps <==> Enabled(fs, "extensions")) &&
               (PidModels in eps <==> Enabled(fs, "pid_models")) &&
               (Models in eps <==> Enabled(fs, "models")) &&
               (H5Exporters in eps <==> Enabled(fs, "h5exporters")) &&
               (Scanners in eps <==> Enabled(fs, "scanners"))
    requires forall g | g in eps :: eps[g] == map[info.shortName := PluginName(info.shortName)]
    ensures eps == DeclaredEntryPoints(info)
  {
    forall g
      ensures g in eps <==> g in DeclaredGroups(info.features)
    {
      InAllGroups(g);
    }
  }

  /** Without a `features` table, exactly `pymodaq.instruments` and `pymodaq.plugins` are
      declared. */
  lemma NoFeaturesDeclaresInstruments(info: PluginInfo)
    requires info.features.None?
    ensures DeclaredEntryPoints(info).Keys == {Instruments, Plugins}
  {
  }

  /** With a `features` table, a feature's group is declared exactly when its flag is on. */
  lemma FeatureDeclaredIff(info: PluginInfo, g: Group)
    requires info.features.Some? && g != Plugins
    ensures g in DeclaredEntryPoints(info) <==> Enabled(info.features.value, FlagName(g))
  {
    InAllGroups(g);
  }

  /** A plugin without a `features` table is declared as if it listed only `instruments`. */
  lemma NoFeaturesMeansInstruments(info: PluginInfo)
    requires info.features.None?
    ensures DeclaredEntryPoints(info) == DeclaredEntryPoints(info.(features := Some(map["instruments" := true])))
  {
    var other := info.(features := Some(map["instruments" := true]));
    forall g
      ensures Declares(info.features, g) <==> Declares(other.features, g)
    {
    }
    assert DeclaredGroups(info.features) == DeclaredGroups(other.features);
  }

  /** The keys the hook writes and the values it writes under them. */
  function Written(info: PluginInfo): (r: map<string, MetaValue>)
    ensures r.Keys == {"authors", "name", "dependencies", "description", "urls", "entry-points"}
  {
    map["authors" := Authors([(info.author, info.authorEmail)]),
        "name" := Text(PluginName(info.shortName)),
        "dependencies" := Names(info.packagesRequired),
        "description" := Text(info.description),
        "urls" := Urls(map["Homepage" := info.packageUrl, "Documentation " := info.packageUrl,
                           "Repository " := info.packageUrl]),
        "entry-points" := EntryPoints(DeclaredEntryPoints(info))]
  }

  /** The metadata dict the build backend passes to the hook. */
  class Metadata {
    var fields: map<string, MetaValue>

    constructor (initial: map<string, MetaValue>)
      ensures fields == initial
    {
      fields := initial;
    }
  }

  /** `update_metadata_from_toml` once the TOML is parsed: the written keys take the values
      derived from the plugin record, and every other key keeps its value. */
  method UpdateMetadataFromToml(metadata: Metadata, info: PluginInfo)
    modifies metadata
    ensures metadata.fields == old(metadata.fields) + Written(info)
  {
    var name := PluginName(info.shortName);
    var m := metadata.fields;
    m := m["authors" := Authors([(info.author, info.authorEmail)])];
    m := m["name" := Text(name)];
    m := m["dependencies" := Names(info.packagesRequired)];
    m := m["description" := Text(info.description)];
    var urls: map<string, string> := map[];
    urls := urls["Homepage" := info.packageUrl];
    urls := urls["Documentation " := info.packageUrl];
    urls := urls["Repository " := info.packageUrl];
    m := m["urls" := Urls(urls)];
    var eps := BuildEntryPoints(info);
    m := m["entry-points" := EntryPoints(eps)];
    metadata.fields := m;
  }

  /** What the hook leaves in the dict: the package name, one author record, the required
      packages, the description, three urls that all point at the package url, the declared
      entry points, and every key it does not write as it was. */
  lemma WrittenFields(before: map<string, MetaValue>, info: PluginInfo)
    ensures (before + Written(info)).Keys == before.Keys + Written(info).Keys
    ensures forall k | k in before && k !in Written(info) :: (before + Written(info))[k] == before[k]
    ensures (before + Written(info))["name"] == Text(PREFIX + info.shortName)
    ensures (before + Written(info))["authors"] == Authors([(info.author, info.authorEmail)])
    ensures (before + Written(info))["dependencies"] == Names(info.packagesRequired)
    ensures (before + Written(info))["description"] == Text(info.description)
    ensures var u := (before + Written(info))["urls"];
            u.Urls? && u.urls.Keys == {"Homepage", "Documentation ", "Repository "} &&
            forall k | k in u.urls :: u.urls[k] == info.packageUrl
    ensures (before + Written(info))["entry-points"] == EntryPoints(DeclaredEntryPoints(info))
  {
  }
}
