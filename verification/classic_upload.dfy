/**
 * The classic upload strategy of the storage publisher: an Ant-style glob,
 * possibly holding `$NAME` build variables, is resolved against the build's
 * environment, rebased onto the filesystem root when it is absolute, and
 * matched against the files under the (possibly rebased) workspace; the
 * matches become the upload specification. The form validator for the glob
 * field is modelled too.
 *
 * The collaborators the strategy calls but does not implement are parameters:
 * the build environment (whose lookup may fail), macro substitution, the
 * directory listing (which may fail) and the built-in variable resolver.
 */
module Storage {
  import opened FilePaths

  /** The checked exceptions that looking up the environment or listing files may raise. */
  datatype Failure = IOException | InterruptedException

  /** The outcome of a collaborator call that may raise one of those exceptions. */
  datatype Attempt<T> = Done(value: T) | Threw(failure: Failure)

  type EnvVars = map<string, string>

  /** The configured upload step; the first three fields belong to the base upload. */
  datatype ClassicUpload = ClassicUpload(
    bucketNameWithVars: string,
    sharedPublicly: bool,
    forFailedJobs: bool,
    sourceGlobWithVars: string)

  /** Construction either yields an upload or fails its non-null check on the glob. */
  datatype Construction = Constructed(upload: ClassicUpload) | NullPointerException

  /** What `getInclusions` returns: null, an upload specification, or a thrown upload exception. */
  datatype Inclusions<P> =
    | NoInclusions
    | UploadSpec(workspace: P, inclusions: seq<P>)
    | UploadException(cause: Failure)

  /** The line written to the build log, with the message's arguments. */
  datatype LogLine = NoArtifacts(pattern: string) | FoundForPattern(count: nat, glob: string)

  /** The result of the form check on the glob field. */
  datatype FormValidation = Ok | EmptyGlob | BadGlobChar(badChar: char)

  /** The glob the user typed; a null glob (None) is refused. */
  function NewClassicUpload(
    bucketNameWithVars: string, sharedPublicly: bool, forFailedJobs: bool,
    sourceGlobWithVars: Option<string>): (r: Construction)
    ensures r.Constructed? <==> sourceGlobWithVars.Some?
    ensures r.Constructed? ==>
      && GetDetails(r.upload) == sourceGlobWithVars.value
      && r.upload.bucketNameWithVars == bucketNameWithVars
      && r.upload.sharedPublicly == sharedPublicly
      && r.upload.forFailedJobs == forFailedJobs
  {
    match sourceGlobWithVars
    case None => NullPointerException
    case Some(glob) => Constructed(ClassicUpload(bucketNameWithVars, sharedPublicly, forFailedJobs, glob))
  }

  /** The details shown for the upload step. */
  function GetDetails(u: ClassicUpload): (details: string)
  {
    u.sourceGlobWithVars
  }

  /** Java's `startsWith("/")`. */
  predicate IsAbsolute(glob: string)
  {
    |glob| > 0 && glob[0] == '/'
  }

  /**
   * The (effective root, relative pattern) pair that is handed to the file
   * listing: an absolute glob is moved onto the workspace's filesystem root
   * with its first character dropped; any other glob is left as it is.
   */
  function Rebase<P(!new)>(h: Hierarchy<P>, workspace: P, globResolvedVars: string): (r: (P, string))
    requires Valid(h)
    ensures RootOf(h, r.0) == RootOf(h, workspace)
    ensures |r.1| <= |globResolvedVars|
  {
    if IsAbsolute(globResolvedVars) then (RootOf(h, workspace), globResolvedVars[1..])
    else (workspace, globResolvedVars)
  }

  /** Follow getParent from the workspace until a path has no parent, and return that path. */
  method GetRoot<P(!new)>(h: Hierarchy<P>, workspace: P) returns (root: P)
    requires Valid(h)
    ensures IsRoot(h, root)
    ensures Reaches(h, workspace, root)
    ensures root == RootOf(h, workspace)
  {
    var iter := workspace;
    ghost var steps: nat := 0;
    while h.parent(iter).Some?
      invariant Ancestor(h, workspace, steps) == Some(iter)
      decreases h.depth(iter)
    {
      AncestorStep(h, workspace, steps, iter);
      iter := h.parent(iter).value;
      steps := steps + 1;
    }
    RootOfUnique(h, workspace, steps, iter);
    root := iter;
  }

  /**
   * Resolve the glob's variables, rebase an absolute glob onto the root,
   * list the matching files and turn the listing into the upload
   * specification, logging either "no artifacts" or the number found.
   */
  method GetInclusions<P(!new)>(
    h: Hierarchy<P>, upload: ClassicUpload, workspace: P,
    environment: Attempt<EnvVars>,
    replaceMacro: (string, EnvVars) -> string,
    list: (P, string) -> Attempt<seq<P>>)
    returns (result: Inclusions<P>, log: seq<LogLine>)
    requires Valid(h)
    ensures environment.Threw? ==> result == UploadException(environment.failure) && log == []
    ensures environment.Done? ==>
      var (root, pattern) := Rebase(h, workspace, replaceMacro(upload.sourceGlobWithVars, environment.value));
      match list(root, pattern)
      case Threw(f) => result == UploadException(f) && log == []
      case Done(files) =>
        if files == [] then result == NoInclusions && log == [NoArtifacts(pattern)]
        else result == UploadSpec(root, files) && log == [FoundForPattern(|files|, upload.sourceGlobWithVars)]
    ensures result.UploadSpec? ==>
      |result.inclusions| > 0 && RootOf(h, result.workspace) == RootOf(h, workspace)
  {
    if environment.Threw? {
      return UploadException(environment.failure), [];
    }
    var globResolvedVars := replaceMacro(upload.sourceGlobWithVars, environment.value);
    var ws := workspace;
    if IsAbsolute(globResolvedVars) {
      ws := GetRoot(h, ws);
      globResolvedVars := globResolvedVars[1..];
    }
    var listing := list(ws, globResolvedVars);
    match listing
    case Threw(f) =>
      return UploadException(f), [];
    case Done(inclusions) =>
      if |inclusions| == 0 {
        return NoInclusions, [NoArtifacts(globResolvedVars)];
      }
      return UploadSpec(ws, inclusions), [FoundForPattern(|inclusions|, upload.sourceGlobWithVars)];
  }

  /** An absolute glob is listed from the workspace's root with exactly its first character removed. */
  lemma RebaseAbsolute<P(!new)>(h: Hierarchy<P>, workspace: P, glob: string)
    requires Valid(h) && IsAbsolute(glob)
    ensures var (root, pattern) := Rebase(h, workspace, glob);
      && IsRoot(h, root)
      && Reaches(h, workspace, root)
      && root == RootOf(h, workspace)
      && |pattern| == |glob| - 1
      && "/" + pattern == glob
  {
    RootOfReachable(h, workspace);
    assert "/" + glob[1..] == glob;
  }

  /** Any other glob is listed from the workspace itself, unchanged. */
  lemma RebaseRelative<P(!new)>(h: Hierarchy<P>, workspace: P, glob: string)
    requires Valid(h) && !IsAbsolute(glob)
    ensures Rebase(h, workspace, glob) == (workspace, glob)
  {
  }

  /** Only one leading separator is stripped: `//rest` is listed as `/rest`, still absolute. */
  lemma DoubleSlashKeepsOne<P(!new)>(h: Hierarchy<P>, workspace: P, rest: string)
    requires Valid(h)
    ensures Rebase(h, workspace, "//" + rest).1 == "/" + rest
    ensures IsAbsolute(Rebase(h, workspace, "//" + rest).1)
  {
  }

  /**
   * At build time nothing refuses a leftover `$`: a resolved glob that still
   * holds one is handed to the listing with the `$` in its pattern.
   */
  lemma UnresolvedMarkerReachesListing<P(!new)>(h: Hierarchy<P>, workspace: P, glob: string)
    requires Valid(h) && '$' in glob
    ensures '$' in Rebase(h, workspace, glob).1
  {
  }

  /** Check, in order, that the pre-resolved glob is non-empty and free of `$`. */
  function DoCheckSourceGlobWithVars(resolveBuiltin: string -> string, sourceGlobWithVars: string): (r: FormValidation)
    ensures r == EmptyGlob <==> resolveBuiltin(sourceGlobWithVars) == ""
    ensures r == BadGlobChar('$') <==>
      resolveBuiltin(sourceGlobWithVars) != "" && '$' in resolveBuiltin(sourceGlobWithVars)
    ensures r == Ok <==>
      resolveBuiltin(sourceGlobWithVars) != "" && '$' !in resolveBuiltin(sourceGlobWithVars)
  {
    var resolvedInput := resolveBuiltin(sourceGlobWithVars);
    if |resolvedInput| == 0 then EmptyGlob
    else if '$' in resolvedInput then BadGlobChar('$')
    else Ok
  }

  /**
   * A glob the form check accepts, once resolved the same way at build time,
   * yields a listing pattern without `$`; the pattern is empty only for the
   * glob "/" itself.
   */
  lemma ValidatedGlobRebases<P(!new)>(
    h: Hierarchy<P>, workspace: P, resolveBuiltin: string -> string, input: string)
    requires Valid(h)
    requires DoCheckSourceGlobWithVars(resolveBuiltin, input) == Ok
    ensures var pattern := Rebase(h, workspace, resolveBuiltin(input)).1;
      && '$' !in pattern
      && (pattern == "" <==> resolveBuiltin(input) == "/")
  {
  }

  // Workspace /home/build/ws with glob /tmp/out/*.log is listed from / as tmp/out/*.log.
  lemma ScenarioAbsoluteGlob()
    ensures Valid(Components())
    ensures Rebase(Components(), ["home", "build", "ws"], "/tmp/out/*.log") == ([], "tmp/out/*.log")
  {
    ComponentsRoot(["home", "build", "ws"]);
  }

  // Workspace /home/build/ws with glob **/*.jar is listed from the workspace, unchanged.
  lemma ScenarioRelativeGlob()
    ensures Valid(Components())
    ensures Rebase(Components(), ["home", "build", "ws"], "**/*.jar") == (["home", "build", "ws"], "**/*.jar")
  {
    ComponentsValid();
  }

  /** A field value whose variable the resolver leaves in place is refused for its `$`. */
  lemma ScenarioUnresolvedVariable()
    ensures DoCheckSourceGlobWithVars(s => s, "build-$UNRESOLVED.txt") == BadGlobChar('$')
  {
  }
}
