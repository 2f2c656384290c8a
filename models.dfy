/**
 * sip_assembly/models.py: the SIP record and its processing statuses.
 */
module Models {
  import opened Common
  import opened Rights

  /** `SIP.CREATED` … `SIP.CLEANED_UP`. */
  const CREATED := 10
  const ASSEMBLED := 20
  const STARTED := 30
  const APPROVED := 40
  const CLEANED_UP := 50

  /**
   * `sip.data['rights_statements']`: the key may be absent, may hold JSON
   * null (None), or may hold a list of statements.
   */
  datatype RightsField = NoRightsKey | RightsValue(statements: Option<seq<Statement>>)

  /** `if sip.data['rights_statements']:` for a present key: a non-empty list. */
  predicate HasRights(f: RightsField)
    requires f.RightsValue?
  {
    f.statements.Some? && f.statements.value != []
  }

  /** One stored row of the SIP table. */
  datatype SipRecord = SipRecord(
    bagIdentifier: string,
    bagPath: string,
    processStatus: int,
    origin: string,
    rights: RightsField,
    lastModified: int)

  /** A SIP model instance loaded from the table; helpers update its fields in place. */
  class Sip {
    const bagIdentifier: string
    const origin: string
    const rights: RightsField
    const lastModified: int
    var bagPath: string
    var processStatus: int

    constructor Load(rec: SipRecord)
      ensures Record() == rec
    {
      bagIdentifier, origin, rights, lastModified := rec.bagIdentifier, rec.origin, rec.rights, rec.lastModified;
      bagPath, processStatus := rec.bagPath, rec.processStatus;
    }

    /** The row `save()` writes. */
    function Record(): (rec: SipRecord)
      reads this
    {
      SipRecord(bagIdentifier, bagPath, processStatus, origin, rights, lastModified)
    }
  }
}
