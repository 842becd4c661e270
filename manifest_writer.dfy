/** The pure part of writing a manifest: turning project and environment
    definitions into the records that are serialised. Go's map iteration
    order is unspecified, so the two loops pick keys with `:|` and their
    contracts hold for every order. */
module ManifestWriter {
  import opened Common
  import opened GoStrings

  // ---------------------------------------------------------------- input

  datatype ProjectDefinition = ProjectDefinition(name: string, path: string)

  datatype EnvironmentType = Classic | Platform

  /** `ValueURLType`, `EnvironmentURLType`, or any other value. */
  datatype UrlType = ValueUrlType | EnvironmentUrlType | OtherUrlType

  datatype UrlDefinition = UrlDefinition(urlType: UrlType, value: string, name: string)

  datatype AuthSecretDefinition = AuthSecretDefinition(name: string)

  datatype OAuthDefinition = OAuthDefinition(
    clientId: AuthSecretDefinition,
    clientSecret: AuthSecretDefinition,
    tokenEndpoint: Option<UrlDefinition>)

  datatype AuthDefinition = AuthDefinition(token: AuthSecretDefinition, oAuth: OAuthDefinition)

  datatype EnvironmentDefinition = EnvironmentDefinition(
    name: string,
    envType: EnvironmentType,
    url: UrlDefinition,
    group: string,
    auth: AuthDefinition)

  // --------------------------------------------------------------- output

  /** The `Type` strings of the written records; `Untyped` is Go's "". */
  datatype ProjectType = UntypedProject | GroupProjectType
  datatype SecretType = UntypedSecret | TypeEnvironment
  datatype WriteableUrlType = UntypedUrl | UrlTypeEnvironment

  datatype Project = Project(name: string, path: string, projectType: ProjectType)

  datatype AuthSecret = AuthSecret(secretType: SecretType, name: string)

  datatype Url = Url(urlType: WriteableUrlType, value: string)

  datatype OAuth = OAuth(clientId: AuthSecret, clientSecret: AuthSecret, tokenEndpoint: Option<Url>)

  datatype Auth = Auth(token: AuthSecret, oAuth: Option<OAuth>)

  datatype Environment = Environment(name: string, url: Url, auth: Auth)

  datatype Group = Group(name: string, environments: seq<Environment>)

  // ------------------------------------------------------------- projects

  /** A project whose path is its dotted name with dots turned into slashes. */
  predicate IsGroupingProject(d: ProjectDefinition)
    ensures IsGroupingProject(d) ==> |d.path| == |d.name| && '.' !in d.path && '/' in d.path
  {
    ReplaceAllAt(d.name, '.', '/');
    '.' in d.name && ReplaceAll(d.name, '.', '/') == d.path
  }

  /** The last dot-separated segment of a name. */
  function LastSegment(name: string): (r: string)
    ensures '.' !in r
  {
    SplitPartsFree(name, '.');
    Split(name, '.')[|Split(name, '.')| - 1]
  }

  /** A dotted name ends with a dot and its last segment. */
  lemma DottedNameEnds(name: string)
    requires '.' in name
    ensures HasSuffix(name, "." + LastSegment(name))
  {
    var subgroups := Split(name, '.');
    SplitLast(name, '.');
    assert name == Join(subgroups[..|subgroups| - 1], '.') + ("." + LastSegment(name));
  }

  /** An undotted name is its own last segment. */
  lemma UndottedNameIsLast(name: string)
    requires '.' !in name
    ensures LastSegment(name) == name
  {
    SplitJoin([name], '.');
  }

  /** The group name and group path: name and path without their last segment. */
  function ExtractGroupedProjectDetails(d: ProjectDefinition): (r: (string, string))
    ensures |r.0| <= |d.name| && r.0 == d.name[..|r.0|]
    ensures |r.1| <= |d.path| && r.1 == d.path[..|r.1|]
  {
    var subgroups := Split(d.name, '.');
    var projectName := subgroups[|subgroups| - 1];
    var groupName := TrimSuffix(d.name, "." + projectName);
    var groupPath := TrimSuffix(d.path, "/" + projectName);
    (groupName, groupPath)
  }

  /** The group name is the name without its last dot-separated segment and that dot. */
  lemma ExtractGroupName(d: ProjectDefinition)
    ensures '.' in d.name ==>
      ExtractGroupedProjectDetails(d).0 + ("." + LastSegment(d.name)) == d.name
    ensures '.' !in d.name ==> ExtractGroupedProjectDetails(d).0 == d.name
  {
    var projectName := LastSegment(d.name);
    if '.' in d.name {
      DottedNameEnds(d.name);
    } else {
      UndottedNameIsLast(d.name);
      assert !HasSuffix(d.name, "." + projectName);
    }
  }

  /** The group path is the path without a slash and the name's last segment, when it ends so. */
  lemma ExtractGroupPath(d: ProjectDefinition)
    ensures HasSuffix(d.path, "/" + LastSegment(d.name)) ==>
      ExtractGroupedProjectDetails(d).1 + ("/" + LastSegment(d.name)) == d.path
    ensures !HasSuffix(d.path, "/" + LastSegment(d.name)) ==> ExtractGroupedProjectDetails(d).1 == d.path
  {
  }

  function GroupName(d: ProjectDefinition): string
  {
    ExtractGroupedProjectDetails(d).0
  }

  /** For a grouping project the group path is the group name with its dots
      turned into slashes, so every project of a group yields the same group. */
  lemma GroupPathFollowsName(d: ProjectDefinition)
    requires IsGroupingProject(d)
    ensures ExtractGroupedProjectDetails(d).1 == ReplaceAll(GroupName(d), '.', '/')
  {
    var last := LastSegment(d.name);
    var groupName := GroupName(d);
    ExtractGroupName(d);
    ExtractGroupPath(d);
    assert d.name == groupName + ("." + last);
    ReplaceAllAppend(groupName, "." + last, '.', '/');
    ReplaceAllAppend(".", last, '.', '/');
    ReplaceAllAbsent(last, '.', '/');
    assert d.path == ReplaceAll(groupName, '.', '/') + ("/" + last);
    assert HasSuffix(d.path, "/" + last);
  }

  /** The record written for a project that is not a grouping project. */
  function SimpleProject(d: ProjectDefinition): (r: Project)
    ensures r.name == d.name && r.projectType == UntypedProject
    ensures d.path != d.name ==> r.path == d.path
    ensures d.path == d.name ==> r.path == ""
  {
    Project(d.name, if d.name != d.path then d.path else "", UntypedProject)
  }

  /** The record written for a group. */
  function GroupProject(groupName: string): (r: Project)
    ensures r.name == groupName && r.projectType == GroupProjectType
    ensures |r.path| == |groupName| && '.' !in r.path
  {
    ReplaceAllAt(groupName, '.', '/');
    Project(groupName, ReplaceAll(groupName, '.', '/'), GroupProjectType)
  }

  predicate IsSimpleProject(d: ProjectDefinition)
  {
    !IsGroupingProject(d)
  }

  /** The keys among `keys` whose values satisfy `p`. */
  ghost function Selected<K, V>(m: map<K, V>, keys: set<K>, p: V -> bool): set<K>
  {
    set k | k in keys && k in m && p(m[k])
  }

  lemma SelectedStep<K, V>(m: map<K, V>, keys: set<K>, k: K, p: V -> bool)
    requires k in m && k !in keys
    ensures p(m[k]) ==> Selected(m, keys + {k}, p) == Selected(m, keys, p) + {k}
    ensures !p(m[k]) ==> Selected(m, keys + {k}, p) == Selected(m, keys, p)
  {
  }

  /** The images under `f` of the values stored under `keys` that satisfy `p`. */
  ghost function Image<K, V, R>(m: map<K, V>, keys: set<K>, p: V -> bool, f: V -> R): set<R>
  {
    set k | k in keys && k in m && p(m[k]) :: f(m[k])
  }

  lemma ImageStep<K, V, R>(m: map<K, V>, keys: set<K>, k: K, p: V -> bool, f: V -> R)
    requires k in m
    ensures p(m[k]) ==> Image(m, keys + {k}, p, f) == Image(m, keys, p, f) + {f(m[k])}
    ensures !p(m[k]) ==> Image(m, keys + {k}, p, f) == Image(m, keys, p, f)
  {
  }

  /** The non-grouping projects among `keys`. */
  ghost function SimpleKeys(projects: map<string, ProjectDefinition>, keys: set<string>): set<string>
  {
    Selected(projects, keys, IsSimpleProject)
  }

  /** The group names of the grouping projects among `keys`. */
  ghost function GroupNames(projects: map<string, ProjectDefinition>, keys: set<string>): set<string>
  {
    Image(projects, keys, IsGroupingProject, GroupName)
  }

  predicate Distinct<T(==)>(s: seq<T>)
  {
    forall i, j :: 0 <= i < j < |s| ==> s[i] != s[j]
  }

  /** `written` holds the records of the non-grouping projects among `done`,
      the one under `keys[i]` at position `i`. */
  ghost predicate SimpleWritten(projects: map<string, ProjectDefinition>, done: set<string>,
                                written: seq<Project>, keys: seq<string>)
  {
    |written| == |keys| == |SimpleKeys(projects, done)| && Distinct(keys) &&
    (forall i :: 0 <= i < |keys| ==> keys[i] in projects && written[i] == SimpleProject(projects[keys[i]])) &&
    (forall k :: k in keys <==> k in SimpleKeys(projects, done))
  }

  lemma SimpleWrittenStep(projects: map<string, ProjectDefinition>, done: set<string>, k: string,
                          written: seq<Project>, keys: seq<string>)
    requires k in projects && k !in done
    requires SimpleWritten(projects, done, written, keys)
    ensures IsSimpleProject(projects[k]) ==>
      SimpleWritten(projects, done + {k}, written + [SimpleProject(projects[k])], keys + [k])
    ensures !IsSimpleProject(projects[k]) ==> SimpleWritten(projects, done + {k}, written, keys)
  {
    SelectedStep(projects, done, k, IsSimpleProject);
  }

  /** `groups` maps each group name met among `done` to its record. */
  ghost predicate GroupsCollected(projects: map<string, ProjectDefinition>, done: set<string>, groups: map<string, Project>)
  {
    groups.Keys == GroupNames(projects, done) &&
    forall n :: n in groups ==> groups[n] == GroupProject(n)
  }

  /** Adding one key to a map keyed by the images of the selected values
      keeps it keyed by them; stated for any selection and naming. */
  lemma KeyedByImageStep<V>(m: map<string, V>, done: set<string>, k: string, groups: map<string, Project>,
                            p: V -> bool, f: V -> string)
    requires k in m
    requires groups.Keys == Image(m, done, p, f)
    requires forall n :: n in groups ==> groups[n] == GroupProject(n)
    ensures p(m[k]) ==> groups[f(m[k]) := GroupProject(f(m[k]))].Keys == Image(m, done + {k}, p, f)
    ensures !p(m[k]) ==> groups.Keys == Image(m, done + {k}, p, f)
    ensures forall n :: n in groups[f(m[k]) := GroupProject(f(m[k]))] ==>
      groups[f(m[k]) := GroupProject(f(m[k]))][n] == GroupProject(n)
  {
    ImageStep(m, done, k, p, f);
  }

  /** The group records for `names`, in that order. */
  function GroupRecords(names: seq<string>): (r: seq<Project>)
    ensures |r| == |names|
  {
    seq(|names|, i requires 0 <= i < |names| => GroupProject(names[i]))
  }

  /** What `toWriteableProjects` writes, given the order `keys` in which the
      map handed out the non-grouping projects: first, for each of them once,
      its record; then one group record per distinct group name, nothing else. */
  ghost predicate ProjectsWritten(projects: map<string, ProjectDefinition>, result: seq<Project>, keys: seq<string>)
  {
    var all := projects.Keys;
    // the ordinary records
    Distinct(keys) && (forall k :: k in keys <==> k in SimpleKeys(projects, all)) &&
    |result| == |keys| + |GroupNames(projects, all)| &&
    (forall i :: 0 <= i < |keys| ==> keys[i] in projects && result[i] == SimpleProject(projects[keys[i]])) &&
    // the group records
    (forall n :: n in GroupNames(projects, all) ==> GroupProject(n) in result) &&
    (forall i :: |keys| <= i < |result| ==>
      result[i].name in GroupNames(projects, all) && result[i] == GroupProject(result[i].name)) &&
    (forall i, j :: |keys| <= i < j < |result| ==> result[i].name != result[j].name)
  }

  /** Non-grouping projects are written one each, in map order; grouping
      projects collapse into one record per distinct group name, written
      after them. */
  method ToWriteableProjects(projects: map<string, ProjectDefinition>) returns (result: seq<Project>, ghost keys: seq<string>)
    ensures ProjectsWritten(projects, result, keys)
  {
    var simple: seq<Project>, groups: map<string, Project>;
    ghost var names: seq<string>;
    simple, groups, keys := CollectProjects(projects);
    result, names := AppendGroupRecords(simple, groups);
    ProjectsAssembled(projects, simple, groups, keys, names, result);
  }

  /** For one order of the ordinary projects, `ProjectsWritten` fixes the
      ordinary records and the set of group records; only the order of the
      group records is left to the map. */
  lemma ProjectsWrittenUpToGroupOrder(projects: map<string, ProjectDefinition>, keys: seq<string>,
                                      r1: seq<Project>, r2: seq<Project>)
    requires ProjectsWritten(projects, r1, keys) && ProjectsWritten(projects, r2, keys)
    ensures |r1| == |r2| && r1[..|keys|] == r2[..|keys|]
    ensures forall i :: |keys| <= i < |r1| ==> r1[i] in r2[|keys|..]
    ensures forall i :: |keys| <= i < |r2| ==> r2[i] in r1[|keys|..]
  {
    GroupRecordsAmong(projects, keys, r1, r2);
    GroupRecordsAmong(projects, keys, r2, r1);
  }

  /** Each group record of one result is among the group records of another. */
  lemma GroupRecordsAmong(projects: map<string, ProjectDefinition>, keys: seq<string>,
                          r1: seq<Project>, r2: seq<Project>)
    requires ProjectsWritten(projects, r1, keys) && ProjectsWritten(projects, r2, keys)
    ensures forall i :: |keys| <= i < |r1| ==> r1[i] in r2[|keys|..]
  {
    forall i | |keys| <= i < |r1|
      ensures r1[i] in r2[|keys|..]
    {
      var j :| 0 <= j < |r2| && r2[j] == r1[i];
      assert j >= |keys|;
      assert r2[|keys|..][j - |keys|] == r1[i];
    }
  }

  /** The two passes together write what `ProjectsWritten` describes. */
  lemma ProjectsAssembled(projects: map<string, ProjectDefinition>, simple: seq<Project>, groups: map<string, Project>,
                          keys: seq<string>, names: seq<string>, result: seq<Project>)
    requires SimpleWritten(projects, projects.Keys, simple, keys)
    requires GroupsCollected(projects, projects.Keys, groups)
    requires result == simple + GroupRecords(names)
    requires |names| == |groups| && Distinct(names)
    requires forall n :: n in names <==> n in groups
    ensures ProjectsWritten(projects, result, keys)
  {
    var groupNames := GroupNames(projects, projects.Keys);
    assert forall n :: n in names <==> n in groupNames;
    assert |groups| == |groups.Keys|;
    SimpleRecordsKept(projects, simple, keys, GroupRecords(names), result);
    GroupRecordsKept(simple, groupNames, names, result);
  }

  /** The first pass over the projects: records for non-grouping projects,
      and a map from group name to group record for the grouping ones. */
  method CollectProjects(projects: map<string, ProjectDefinition>)
    returns (result: seq<Project>, groups: map<string, Project>, ghost keys: seq<string>)
    ensures SimpleWritten(projects, projects.Keys, result, keys)
    ensures GroupsCollected(projects, projects.Keys, groups)
  {
    groups := map[];
    result := [];
    keys := [];
    var remaining := projects.Keys;
    while remaining != {}
      invariant remaining <= projects.Keys
      invariant SimpleWritten(projects, projects.Keys - remaining, result, keys)
      invariant GroupsCollected(projects, projects.Keys - remaining, groups)
      decreases remaining
    {
      var key :| key in remaining;
      var projectDefinition := projects[key];
      ghost var done := projects.Keys - remaining;
      assert projects.Keys - (remaining - {key}) == done + {key};
      SimpleWrittenStep(projects, done, key, result, keys);
      KeyedByImageStep(projects, done, key, groups, IsGroupingProject, GroupName);
      if IsGroupingProject(projectDefinition) {
        var (groupName, groupPath) := ExtractGroupedProjectDetails(projectDefinition);
        GroupPathFollowsName(projectDefinition);
        groups := groups[groupName := Project(groupName, groupPath, GroupProjectType)];
      } else {
        var p := Project(projectDefinition.name, "", UntypedProject);
        if projectDefinition.name != projectDefinition.path {
          p := p.(path := projectDefinition.path);
        }
        result := result + [p];
        keys := keys + [key];
      }
      remaining := remaining - {key};
    }
    assert projects.Keys - remaining == projects.Keys;
  }

  /** The second pass: one record per group, appended in map order. */
  method AppendGroupRecords(simple: seq<Project>, groups: map<string, Project>)
    returns (result: seq<Project>, ghost names: seq<string>)
    requires forall n :: n in groups ==> groups[n] == GroupProject(n)
    ensures result == simple + GroupRecords(names)
    ensures |names| == |groups| && Distinct(names)
    ensures forall n :: n in names <==> n in groups
  {
    result := simple;
    names := [];
    var pending := groups.Keys;
    while pending != {}
      invariant pending <= groups.Keys
      invariant result == simple + GroupRecords(names)
      invariant Distinct(names)
      invariant forall n :: n in names <==> n in groups && n !in pending
      invariant |names| + |pending| == |groups|
      decreases pending
    {
      var g :| g in pending;
      assert GroupRecords(names + [g]) == GroupRecords(names) + [groups[g]] by {
        assert (names + [g])[..|names|] == names;
      }
      assert (simple + GroupRecords(names)) + [groups[g]] == simple + (GroupRecords(names) + [groups[g]]);
      result := result + [groups[g]];
      names := names + [g];
      pending := pending - {g};
    }
  }

  /** Anything appended after the ordinary records leaves them in place. */
  lemma SimpleRecordsKept(projects: map<string, ProjectDefinition>, simple: seq<Project>, keys: seq<string>,
                          rest: seq<Project>, result: seq<Project>)
    requires SimpleWritten(projects, projects.Keys, simple, keys)
    requires result == simple + rest
    ensures forall i :: 0 <= i < |keys| ==> keys[i] in projects && result[i] == SimpleProject(projects[keys[i]])
  {
  }

  /** The group records of distinct names, after the ordinary records, hold
      each group once and nothing but groups. */
  lemma GroupRecordsKept(simple: seq<Project>, groups: set<string>, names: seq<string>, result: seq<Project>)
    requires result == simple + GroupRecords(names)
    requires Distinct(names)
    requires forall n :: n in names <==> n in groups
    ensures forall n :: n in groups ==> GroupProject(n) in result
    ensures forall i :: |simple| <= i < |result| ==>
      result[i].name in groups && result[i] == GroupProject(result[i].name)
    ensures forall i, j :: |simple| <= i < j < |result| ==> result[i].name != result[j].name
  {
    var n := |simple|;
    assert forall i :: n <= i < |result| ==> result[i] == GroupProject(names[i - n]);
    forall g | g in groups
      ensures GroupProject(g) in result
    {
      var j :| 0 <= j < |names| && names[j] == g;
      assert result[n + j] == GroupProject(g);
    }
  }

  // --------------------------------------------------------- environments

  /** The secret holding an environment's token: the configured name, or the
      environment's name followed by `_TOKEN`. */
  function GetTokenSecret(env: EnvironmentDefinition): (r: AuthSecret)
    ensures r.secretType == TypeEnvironment
    ensures env.auth.token.name != "" ==> r.name == env.auth.token.name
    ensures env.auth.token.name == "" ==> r.name == env.name + "_TOKEN"
    ensures r.name != ""
  {
    var token := env.name + "_TOKEN";
    var token' := if env.auth.token.name != "" then env.auth.token.name else token;
    AuthSecret(TypeEnvironment, token')
  }

  /** The written form of a URL definition. */
  function UrlOf(u: UrlDefinition): (r: Url)
    ensures r.urlType == UrlTypeEnvironment <==> u.urlType == EnvironmentUrlType
    ensures r.urlType == UrlTypeEnvironment ==> r.value == u.name
    ensures r.urlType == UntypedUrl ==> r.value == u.value
  {
    if u.urlType == EnvironmentUrlType then Url(UrlTypeEnvironment, u.name) else Url(UntypedUrl, u.value)
  }

  /** An environment URL names an environment variable; any other URL is a literal value. */
  function ToWriteableUrl(env: EnvironmentDefinition): (r: Url)
    ensures r.urlType == UrlTypeEnvironment <==> env.url.urlType == EnvironmentUrlType
    ensures r.urlType == UrlTypeEnvironment ==> r.value == env.url.name
    ensures r.urlType == UntypedUrl ==> r.value == env.url.value
  {
    UrlOf(env.url)
  }

  /** The written token endpoint: absent when undefined or of an unknown type. */
  function TokenEndpoint(te: Option<UrlDefinition>): (r: Option<Url>)
    ensures r.None? <==> te.None? || te.value.urlType == OtherUrlType
    ensures r.Some? ==> r.value == UrlOf(te.value)
  {
    if te.None? then None
    else
      match te.value.urlType
      case ValueUrlType => Some(Url(UntypedUrl, te.value.value))
      case EnvironmentUrlType => Some(Url(UrlTypeEnvironment, te.value.name))
      case OtherUrlType => None
  }

  /** Classic environments carry only a token; platform environments also
      carry OAuth client credentials and, when known, a token endpoint. */
  function GetAuth(env: EnvironmentDefinition): (r: Auth)
    ensures r.token == GetTokenSecret(env)
    ensures r.oAuth.None? <==> env.envType == Classic
    ensures r.oAuth.Some? ==>
      r.oAuth.value.clientId == AuthSecret(TypeEnvironment, env.auth.oAuth.clientId.name) &&
      r.oAuth.value.clientSecret == AuthSecret(TypeEnvironment, env.auth.oAuth.clientSecret.name)
    ensures r.oAuth.Some? ==>
      (r.oAuth.value.tokenEndpoint.None? <==>
        env.auth.oAuth.tokenEndpoint.None? || env.auth.oAuth.tokenEndpoint.value.urlType == OtherUrlType)
  {
    if env.envType == Classic then Auth(GetTokenSecret(env), None)
    else
      var te := TokenEndpoint(env.auth.oAuth.tokenEndpoint);
      Auth(GetTokenSecret(env), Some(OAuth(
        AuthSecret(TypeEnvironment, env.auth.oAuth.clientId.name),
        AuthSecret(TypeEnvironment, env.auth.oAuth.clientSecret.name),
        te)))
  }

  /** A recognised token endpoint is written the way the environment URL would be. */
  lemma TokenEndpointLikeUrl(env: EnvironmentDefinition, u: UrlDefinition)
    requires env.envType != Classic
    requires env.auth.oAuth.tokenEndpoint == Some(u) && u.urlType != OtherUrlType
    ensures GetAuth(env).oAuth.value.tokenEndpoint == Some(ToWriteableUrl(env.(url := u)))
  {
  }

  /** The record written for the environment stored under `name`. */
  function EnvironmentEntry(name: string, env: EnvironmentDefinition): (r: Environment)
    ensures r.name == name
    ensures r.url.urlType == UrlTypeEnvironment <==> env.url.urlType == EnvironmentUrlType
    ensures env.auth.token.name == "" ==> r.auth.token.name == env.name + "_TOKEN"
    ensures r.auth.oAuth.None? <==> env.envType == Classic
  {
    Environment(name, ToWriteableUrl(env), GetAuth(env))
  }

  predicate DistinctNames(envs: seq<Environment>)
  {
    forall i, j :: 0 <= i < j < |envs| ==> envs[i].name != envs[j].name
  }

  ghost function MembersOf(environments: map<string, EnvironmentDefinition>, g: string): set<string>
  {
    set k | k in environments && environments[k].group == g
  }

  /** The environments whose group is among `gs`. */
  ghost function MembersOfAny(environments: map<string, EnvironmentDefinition>, gs: set<string>): set<string>
  {
    set k | k in environments && environments[k].group in gs
  }

  /** The number of environments written over all groups. */
  function CountEnvironments(groups: seq<Group>): nat
  {
    if groups == [] then 0
    else CountEnvironments(groups[..|groups| - 1]) + |groups[|groups| - 1].environments|
  }

  lemma MembersOfAnyStep(environments: map<string, EnvironmentDefinition>, gs: set<string>, g: string)
    requires g !in gs
    ensures |MembersOfAny(environments, gs + {g})| == |MembersOfAny(environments, gs)| + |MembersOf(environments, g)|
  {
    assert MembersOfAny(environments, gs + {g}) == MembersOfAny(environments, gs) + MembersOf(environments, g);
    assert MembersOfAny(environments, gs) * MembersOf(environments, g) == {};
  }

  /** `e` is the record of an environment of group `g` that is not in `remaining`. */
  ghost predicate Placed(environments: map<string, EnvironmentDefinition>, remaining: set<string>, g: string, e: Environment)
  {
    e.name in environments && e.name !in remaining && environments[e.name].group == g &&
    e == EnvironmentEntry(e.name, environments[e.name])
  }

  /** Every bucket holds only placed records of its group, with distinct names. */
  ghost predicate BucketsPlaced(environments: map<string, EnvironmentDefinition>, remaining: set<string>,
                                perGroup: map<string, seq<Environment>>)
  {
    forall g :: g in perGroup ==>
      DistinctNames(perGroup[g]) &&
      forall i :: 0 <= i < |perGroup[g]| ==> Placed(environments, remaining, g, perGroup[g][i])
  }

  /** Every bucket is as long as its group has environments outside `remaining`. */
  ghost predicate BucketsSized(environments: map<string, EnvironmentDefinition>, remaining: set<string>,
                               perGroup: map<string, seq<Environment>>)
  {
    forall g :: g in perGroup ==> |perGroup[g]| == |MembersOf(environments, g) - remaining|
  }

  /** The environment under `k` sits at position `slot[k]` of its bucket. */
  ghost predicate SlotsFilled(environments: map<string, EnvironmentDefinition>, remaining: set<string>,
                              perGroup: map<string, seq<Environment>>, slot: map<string, nat>)
  {
    slot.Keys == environments.Keys - remaining &&
    forall k :: k in slot ==>
      environments[k].group in perGroup && slot[k] < |perGroup[environments[k].group]| &&
      perGroup[environments[k].group][slot[k]] == EnvironmentEntry(k, environments[k])
  }

  /** A bucket exists only once an environment has been appended to it. */
  predicate BucketsNonEmpty(perGroup: map<string, seq<Environment>>)
  {
    forall g :: g in perGroup ==> perGroup[g] != []
  }

  lemma BucketsNonEmptyStep(perGroup: map<string, seq<Environment>>, g: string, e: Environment)
    requires BucketsNonEmpty(perGroup)
    ensures BucketsNonEmpty(perGroup[g := Bucket(perGroup, g) + [e]])
  {
  }

  /** `perGroup` buckets the environments not in `remaining` by group, each once. */
  ghost predicate Bucketed(environments: map<string, EnvironmentDefinition>, remaining: set<string>,
                           perGroup: map<string, seq<Environment>>, slot: map<string, nat>)
  {
    BucketsNonEmpty(perGroup) &&
    BucketsPlaced(environments, remaining, perGroup) &&
    BucketsSized(environments, remaining, perGroup) &&
    SlotsFilled(environments, remaining, perGroup, slot)
  }

  /** The bucket of group `g`, empty before its first environment. */
  function Bucket(perGroup: map<string, seq<Environment>>, g: string): seq<Environment>
  {
    if g in perGroup then perGroup[g] else []
  }

  lemma BucketsPlacedStep(environments: map<string, EnvironmentDefinition>, remaining: set<string>,
                          perGroup: map<string, seq<Environment>>, name: string)
    requires name in remaining && name in environments
    requires BucketsPlaced(environments, remaining, perGroup)
    ensures var g := environments[name].group;
      BucketsPlaced(environments, remaining - {name},
                    perGroup[g := Bucket(perGroup, g) + [EnvironmentEntry(name, environments[name])]])
  {
    var g := environments[name].group;
    var bucket := Bucket(perGroup, g);
    forall i | 0 <= i < |bucket|
      ensures bucket[i].name != name
    {
      assert Placed(environments, remaining, g, bucket[i]);
    }
  }

  /** Before its first environment is bucketed, a group has no environment outside `remaining`. */
  lemma UnbucketedGroupUntouched(environments: map<string, EnvironmentDefinition>, remaining: set<string>,
                                 perGroup: map<string, seq<Environment>>, slot: map<string, nat>, g: string)
    requires g !in perGroup
    requires SlotsFilled(environments, remaining, perGroup, slot)
    ensures MembersOf(environments, g) - remaining == {}
  {
    assert forall k :: k in environments && k !in remaining ==> k in slot;
  }

  /** Taking `name` out of `remaining` adds one member outside `remaining` to its own group. */
  lemma MembersOfOwnStep(environments: map<string, EnvironmentDefinition>, remaining: set<string>, name: string)
    requires name in remaining && name in environments
    ensures var g := environments[name].group;
      |MembersOf(environments, g) - (remaining - {name})| == |MembersOf(environments, g) - remaining| + 1
  {
    var g := environments[name].group;
    var before := MembersOf(environments, g) - remaining;
    assert MembersOf(environments, g) - (remaining - {name}) == before + {name};
    assert name !in before;
  }

  /** Taking `name` out of `remaining` leaves every other group's members outside `remaining` alone. */
  lemma MembersOfOtherStep(environments: map<string, EnvironmentDefinition>, remaining: set<string>, name: string, h: string)
    requires name in remaining && name in environments && environments[name].group != h
    ensures MembersOf(environments, h) - (remaining - {name}) == MembersOf(environments, h) - remaining
  {
  }

  lemma BucketsSizedStep(environments: map<string, EnvironmentDefinition>, remaining: set<string>,
                         perGroup: map<string, seq<Environment>>, slot: map<string, nat>, name: string)
    requires name in remaining && name in environments
    requires BucketsSized(environments, remaining, perGroup)
    requires SlotsFilled(environments, remaining, perGroup, slot)
    ensures var g := environments[name].group;
      BucketsSized(environments, remaining - {name},
                   perGroup[g := Bucket(perGroup, g) + [EnvironmentEntry(name, environments[name])]])
  {
    var g := environments[name].group;
    var next := perGroup[g := Bucket(perGroup, g) + [EnvironmentEntry(name, environments[name])]];
    if g !in perGroup {
      UnbucketedGroupUntouched(environments, remaining, perGroup, slot, g);
    }
    MembersOfOwnStep(environments, remaining, name);
    assert |next[g]| == |MembersOf(environments, g) - (remaining - {name})|;
    forall h | h in next
      ensures |next[h]| == |MembersOf(environments, h) - (remaining - {name})|
    {
      if h != g {
        MembersOfOtherStep(environments, remaining, name, h);
      }
    }
  }

  lemma SlotsFilledStep(environments: map<string, EnvironmentDefinition>, remaining: set<string>,
                        perGroup: map<string, seq<Environment>>, slot: map<string, nat>, name: string)
    requires remaining <= environments.Keys && name in remaining
    requires SlotsFilled(environments, remaining, perGroup, slot)
    ensures var g := environments[name].group;
      SlotsFilled(environments, remaining - {name},
                  perGroup[g := Bucket(perGroup, g) + [EnvironmentEntry(name, environments[name])]],
                  slot[name := |Bucket(perGroup, g)|])
  {
    var g := environments[name].group;
    var grown := perGroup[g := Bucket(perGroup, g) + [EnvironmentEntry(name, environments[name])]];
    var slot' := slot[name := |Bucket(perGroup, g)|];
    forall k | k in slot'
      ensures environments[k].group in grown && slot'[k] < |grown[environments[k].group]|
      ensures grown[environments[k].group][slot'[k]] == EnvironmentEntry(k, environments[k])
    {
      if k != name {
        assert k in slot;
      }
    }
  }

  /** The groups the environments name. */
  ghost function GroupsOf(environments: map<string, EnvironmentDefinition>): set<string>
  {
    set k | k in environments :: environments[k].group
  }

  /** Once every environment is bucketed, the buckets are keyed by exactly the groups named. */
  lemma BucketKeys(environments: map<string, EnvironmentDefinition>, perGroup: map<string, seq<Environment>>,
                   slot: map<string, nat>)
    requires Bucketed(environments, {}, perGroup, slot)
    ensures perGroup.Keys == GroupsOf(environments)
  {
    forall g | g in perGroup
      ensures g in GroupsOf(environments)
    {
      assert Placed(environments, {}, g, perGroup[g][0]);
    }
    forall k | k in environments
      ensures environments[k].group in perGroup
    {
      assert k in slot;
    }
  }

  /** The first pass: the environments bucketed by group, in map order. */
  method BucketEnvironments(environments: map<string, EnvironmentDefinition>)
    returns (perGroup: map<string, seq<Environment>>, ghost slot: map<string, nat>)
    ensures Bucketed(environments, {}, perGroup, slot)
    ensures perGroup.Keys == GroupsOf(environments)
    ensures forall g :: g in perGroup ==> perGroup[g] != []
  {
    perGroup := map[];
    slot := map[];
    var remaining := environments.Keys;
    while remaining != {}
      invariant remaining <= environments.Keys
      invariant Bucketed(environments, remaining, perGroup, slot)
      decreases remaining
    {
      var name :| name in remaining;
      var env := environments[name];
      var e := Environment(name, ToWriteableUrl(env), GetAuth(env));
      BucketsNonEmptyStep(perGroup, env.group, e);
      BucketsPlacedStep(environments, remaining, perGroup, name);
      BucketsSizedStep(environments, remaining, perGroup, slot, name);
      SlotsFilledStep(environments, remaining, perGroup, slot, name);
      var bucket := if env.group in perGroup then perGroup[env.group] else [];
      slot := slot[name := |bucket|];
      perGroup := perGroup[env.group := bucket + [e]];
      remaining := remaining - {name};
    }
    BucketKeys(environments, perGroup, slot);
  }

  /** The group records for `order`, in that order. */
  function GroupsInOrder(perGroup: map<string, seq<Environment>>, order: seq<string>): (r: seq<Group>)
    requires forall i :: 0 <= i < |order| ==> order[i] in perGroup
    ensures |r| == |order|
  {
    seq(|order|, i requires 0 <= i < |order| => Group(order[i], perGroup[order[i]]))
  }

  lemma CountStep(groups: seq<Group>, g: Group)
    ensures CountEnvironments(groups + [g]) == CountEnvironments(groups) + |g.environments|
  {
    assert (groups + [g])[..|groups|] == groups;
  }

  /** The second pass: one group record per bucket, in map order. */
  method EmitGroups(ghost environments: map<string, EnvironmentDefinition>, perGroup: map<string, seq<Environment>>)
    returns (result: seq<Group>, ghost order: seq<string>)
    requires forall g :: g in perGroup ==> |perGroup[g]| == |MembersOf(environments, g)|
    ensures forall i :: 0 <= i < |order| ==> order[i] in perGroup
    ensures result == GroupsInOrder(perGroup, order)
    ensures Distinct(order) && forall g :: g in order <==> g in perGroup
    ensures CountEnvironments(result) == |MembersOfAny(environments, perGroup.Keys)|
  {
    result := [];
    order := [];
    var pending := perGroup.Keys;
    while pending != {}
      invariant pending <= perGroup.Keys
      invariant forall i :: 0 <= i < |order| ==> order[i] in perGroup
      invariant result == GroupsInOrder(perGroup, order)
      invariant Distinct(order) && forall g :: g in order <==> g in perGroup && g !in pending
      invariant CountEnvironments(result) == |MembersOfAny(environments, perGroup.Keys - pending)|
      decreases pending
    {
      var g :| g in pending;
      MembersOfAnyStep(environments, perGroup.Keys - pending, g);
      assert perGroup.Keys - (pending - {g}) == (perGroup.Keys - pending) + {g};
      CountStep(result, Group(g, perGroup[g]));
      result := result + [Group(g, perGroup[g])];
      order := order + [g];
      pending := pending - {g};
    }
    assert perGroup.Keys - pending == perGroup.Keys;
  }

  /** The group records written for `environments`: one per group named, under
      distinct names and never empty; each holds only its own group's records,
      each once, under their map keys; every environment is written, and the
      records hold exactly as many environments as there are. */
  ghost predicate EnvironmentGroupsWritten(environments: map<string, EnvironmentDefinition>, result: seq<Group>)
  {
    (forall i, j :: 0 <= i < j < |result| ==> result[i].name != result[j].name) &&
    (forall i :: 0 <= i < |result| ==>
      result[i].environments != [] && DistinctNames(result[i].environments)) &&
    (forall i :: 0 <= i < |result| ==> result[i].name in GroupsOf(environments)) &&
    (forall i, j :: 0 <= i < |result| && 0 <= j < |result[i].environments| ==>
      Placed(environments, {}, result[i].name, result[i].environments[j])) &&
    (forall k :: k in environments ==>
      exists i, j :: 0 <= i < |result| && 0 <= j < |result[i].environments| &&
        result[i].environments[j] == EnvironmentEntry(k, environments[k])) &&
    CountEnvironments(result) == |environments|
  }

  /** Environments are bucketed by their group, keeping their map key as name;
      one group record is written per bucket. */
  method ToWriteableEnvironmentGroups(environments: map<string, EnvironmentDefinition>) returns (result: seq<Group>)
    ensures EnvironmentGroupsWritten(environments, result)
  {
    var environmentPerGroup: map<string, seq<Environment>>;
    ghost var slot: map<string, nat>, order: seq<string>;
    environmentPerGroup, slot := BucketEnvironments(environments);
    BucketsFull(environments, environmentPerGroup);
    result, order := EmitGroups(environments, environmentPerGroup);
    EnvironmentGroupsAssembled(environments, environmentPerGroup, slot, order, result);
  }

  /** Once every environment is bucketed, each bucket holds all of its group. */
  lemma BucketsFull(environments: map<string, EnvironmentDefinition>, perGroup: map<string, seq<Environment>>)
    requires BucketsSized(environments, {}, perGroup)
    ensures forall g :: g in perGroup ==> |perGroup[g]| == |MembersOf(environments, g)|
  {
    assert forall g :: g in perGroup ==> MembersOf(environments, g) - {} == MembersOf(environments, g);
  }

  /** The two passes together write the group records of `EnvironmentGroupsWritten`. */
  lemma EnvironmentGroupsAssembled(environments: map<string, EnvironmentDefinition>,
                                   perGroup: map<string, seq<Environment>>, slot: map<string, nat>,
                                   order: seq<string>, result: seq<Group>)
    requires Bucketed(environments, {}, perGroup, slot)
    requires forall i :: 0 <= i < |order| ==> order[i] in perGroup
    requires result == GroupsInOrder(perGroup, order)
    requires Distinct(order) && forall g :: g in order <==> g in perGroup
    requires CountEnvironments(result) == |MembersOfAny(environments, perGroup.Keys)|
    ensures EnvironmentGroupsWritten(environments, result)
  {
    GroupsPlaced(environments, perGroup, order, result);
    GroupsCover(environments, perGroup, slot, order, result);
    AllGroupsBucketed(environments, perGroup, slot);
  }

  /** Each written group holds only its own environments, once each, and no
      two groups share a name; no group is empty, so some environment names it. */
  lemma GroupsPlaced(environments: map<string, EnvironmentDefinition>, perGroup: map<string, seq<Environment>>,
                     order: seq<string>, result: seq<Group>)
    requires BucketsNonEmpty(perGroup) && BucketsPlaced(environments, {}, perGroup)
    requires forall i :: 0 <= i < |order| ==> order[i] in perGroup
    requires result == GroupsInOrder(perGroup, order)
    requires Distinct(order)
    ensures forall i, j :: 0 <= i < j < |result| ==> result[i].name != result[j].name
    ensures forall i, j :: 0 <= i < |result| && 0 <= j < |result[i].environments| ==>
      Placed(environments, {}, result[i].name, result[i].environments[j])
    ensures forall i :: 0 <= i < |result| ==>
      result[i].environments != [] && DistinctNames(result[i].environments)
    ensures forall i :: 0 <= i < |result| ==> result[i].name in GroupsOf(environments)
  {
    forall i | 0 <= i < |result|
      ensures result[i] == Group(order[i], perGroup[order[i]])
    {
    }
    forall i | 0 <= i < |result|
      ensures result[i].name in GroupsOf(environments)
    {
      var e := result[i].environments[0];
      assert Placed(environments, {}, result[i].name, e);
      assert e.name in environments && environments[e.name].group == result[i].name;
    }
  }

  /** Every environment is written, in the group record of its group. */
  lemma GroupsCover(environments: map<string, EnvironmentDefinition>, perGroup: map<string, seq<Environment>>,
                    slot: map<string, nat>, order: seq<string>, result: seq<Group>)
    requires SlotsFilled(environments, {}, perGroup, slot)
    requires forall i :: 0 <= i < |order| ==> order[i] in perGroup
    requires result == GroupsInOrder(perGroup, order)
    requires forall g :: g in order <==> g in perGroup
    ensures forall k :: k in environments ==>
      exists i, j :: 0 <= i < |result| && 0 <= j < |result[i].environments| &&
        result[i].environments[j] == EnvironmentEntry(k, environments[k])
  {
    forall k | k in environments
      ensures exists i, j :: (0 <= i < |result| && 0 <= j < |result[i].environments| &&
                              result[i].environments[j] == EnvironmentEntry(k, environments[k]))
    {
      assert k in slot;
      var g := environments[k].group;
      assert g in order;
      var i :| 0 <= i < |order| && order[i] == g;
      assert result[i].environments[slot[k]] == EnvironmentEntry(k, environments[k]);
    }
  }

  /** Every environment's group has a bucket, so the buckets hold all of them. */
  lemma AllGroupsBucketed(environments: map<string, EnvironmentDefinition>, perGroup: map<string, seq<Environment>>,
                          slot: map<string, nat>)
    requires SlotsFilled(environments, {}, perGroup, slot)
    ensures MembersOfAny(environments, perGroup.Keys) == environments.Keys
  {
    forall k | k in environments
      ensures environments[k].group in perGroup
    {
      assert k in slot;
    }
  }
}
