/**
 * `LinkExecutor::execute_link` (src/link_executor.rs): resolve the original,
 * probe it, resolve the link, log, then create the link with the platform's
 * `create_link`. A failed probe ends the operation.
 */
module LinkExecutor {
  import opened Prelude
  import Schema
  import opened ArgumentResolver
  import opened Process

  /** `createLink` is the platform's `create_link`. */
  function ExecuteLink(createLink: (string, string, Host) -> Step, original: Schema.PathStr, link: Schema.PathStr, host: Host): (s: Step)
    ensures s.effects != [] && s.effects[0] == MetadataProbed(ResolvePathArgument(original, Some(host.home)))
    ensures host.metadata(ResolvePathArgument(original, Some(host.home))).Err? ==>
              s == Step(Err(Io(host.metadata(ResolvePathArgument(original, Some(host.home))).error)),
                        [MetadataProbed(ResolvePathArgument(original, Some(host.home)))])
    ensures host.metadata(ResolvePathArgument(original, Some(host.home))).Ok? ==>
              var o := ResolvePathArgument(original, Some(host.home));
              var l := ResolvePathArgument(link, Some(host.home));
              s == Step(createLink(o, l, host).result, [MetadataProbed(o), LinkLogged(o, l)] + createLink(o, l, host).effects)
  {
    var originalPath := ResolvePathArgument(original, Some(host.home));
    match host.metadata(originalPath)
    case Err(e) => Step(Err(Io(e)), [MetadataProbed(originalPath)])
    case Ok(_) =>
      var linkPath := ResolvePathArgument(link, Some(host.home));
      var created := createLink(originalPath, linkPath, host);
      Step(created.result, [MetadataProbed(originalPath), LinkLogged(originalPath, linkPath)] + created.effects)
  }

  /** The link path itself is never probed: the only probe is of the resolved original. */
  lemma OnlyTheOriginalIsProbed(createLink: (string, string, Host) -> Step, original: Schema.PathStr, link: Schema.PathStr, host: Host, k: nat)
    requires forall o, l, h, j :: 0 <= j < |createLink(o, l, h).effects| ==> !createLink(o, l, h).effects[j].MetadataProbed?
    requires k < |ExecuteLink(createLink, original, link, host).effects|
    requires ExecuteLink(createLink, original, link, host).effects[k].MetadataProbed?
    ensures k == 0
  {
  }

  /** Success needs a successful probe of the original; after a failed probe nothing else happens. */
  lemma LinkCreatedOnlyAfterProbe(createLink: (string, string, Host) -> Step, original: Schema.PathStr, link: Schema.PathStr, host: Host)
    ensures ExecuteLink(createLink, original, link, host).result.Ok? ==>
              host.metadata(ResolvePathArgument(original, Some(host.home))).Ok?
    ensures host.metadata(ResolvePathArgument(original, Some(host.home))).Err? ==>
              |ExecuteLink(createLink, original, link, host).effects| == 1
  {
  }
}
