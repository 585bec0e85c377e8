/** Values of the live-evidence pipeline
    (apps/api/backend/ask/live_intelligence.py). Timestamps are instants on one
    time line. */
module LiveContracts {
  import opened Foundations

  datatype Family = OfficialDirect | ParallelSourceRetaining | Reuters | DowJonesFactiva

  datatype SourceType =
    | OperativeOfficial | OfficialCurrentNotice | OfficialDraftOrConsultation
    | LicensedNews | EstablishedPress | IndustryAnnouncement

  datatype LicenseClass = OfficialPublic | EnterpriseLicensed | FirstPartyPublic

  datatype RetentionMode = MetadataOnly | Excerpt | FullText

  datatype ProviderState = Satisfied | NoMatch | TimedOut | Unavailable | InvalidOutput

  datatype Reason =
    | ProviderIdentityMismatch | ConnectorSecurityInvalid | EntitlementInactive
    | RegistryEntryInactive | SourceNotApproved | SourceTypeNotApproved | LicenseMismatch
    | UrlNotAdmissible | PublisherMismatch | PublicationTimeMissing | PublicationTimeInFuture
    | OutsideTimeWindow | RetrievalTimeInvalid | ContentHashMismatch | RetentionNotPermitted
    | Duplicate

  datatype RegistryEntry = RegistryEntry(
    id: string, host: string, publisher: string, active: bool,
    sourceTypes: seq<SourceType>,
    families: seq<Family>, license: LicenseClass)

  datatype Approval = Approval(
    provider: string, family: Family, enabled: bool, entitled: bool,
    retention: RetentionMode, entries: seq<string>)

  datatype Item = Item(
    id: string, entry: string, canonicalUrl: string, originalUrl: string, publisher: string,
    title: string, sourceType: SourceType, license: LicenseClass, publishedAt: Option<int>,
    retrievedAt: int, closesAt: Option<int>, excerpt: string, hash: string)

  datatype Payload = Payload(provider: string, state: ProviderState, items: seq<Item>, code: Option<string>)

  /** An admitted item. `sources` are the source identities of its lineage. */
  datatype Evidence = Evidence(
    id: string, provider: string, entry: string, url: string, hash: string, publisher: string,
    title: string, sources: seq<string>, duplicateIds: seq<string>)

  datatype Rejected = Rejected(provider: string, id: Option<string>, reason: Reason)

  datatype Outcome = Outcome(
    provider: string, state: ProviderState, attempts: nat, admitted: nat, rejected: nat, code: Option<string>)
}
