/** Stateless validation of the committee member operations. */
module CommitteeMember {
  import opened Results
  import opened ProtocolTypes
  import opened Bytes

  /** A URL as the `std::string` holds it: its bytes, so `size()` counts
      bytes, whatever characters they encode. */
  type Url = seq<byte>

  /** `committee_member_create_operation::validate`. */
  function CommitteeMemberCreateValidate(fee: Asset, url: Url): (r: Outcome)
    ensures r.Pass? <==> fee.amount >= 0 && |url| < MaxUrlLength
  {
    Assert(fee.amount >= 0, "fee.amount >= 0").Then(Assert(|url| < MaxUrlLength, "url.size() < GRAPHENE_MAX_URL_LENGTH"))
  }

  /** `committee_member_update_operation::validate`: the URL is only checked
      when it is being replaced. */
  function CommitteeMemberUpdateValidate(fee: Asset, newUrl: Option<Url>): (r: Outcome)
    ensures r.Pass? <==> fee.amount >= 0 && (newUrl.Some? ==> |newUrl.value| < MaxUrlLength)
  {
    Assert(fee.amount >= 0, "fee.amount >= 0")
      .Then(if newUrl.Some? then Assert(|newUrl.value| < MaxUrlLength, "new_url->size() < GRAPHENE_MAX_URL_LENGTH") else Pass)
  }

  /** Updating a URL passes exactly when creating a member with that URL
      would. */
  lemma UpdateAgreesWithCreate(fee: Asset, url: Url)
    ensures CommitteeMemberUpdateValidate(fee, Some(url)).Pass? <==> CommitteeMemberCreateValidate(fee, url).Pass?
  {
  }

  /** `committee_member_update_global_parameters_operation::validate`.
      `newParametersCheck` is the outcome of `chain_parameters::validate` on
      the proposed parameters, which is not part of this model. */
  function CommitteeMemberUpdateGlobalParametersValidate(fee: Asset, newParametersCheck: Outcome): (r: Outcome)
    ensures fee.amount < 0 ==> r.Fail?
    ensures fee.amount >= 0 ==> r == newParametersCheck
  {
    Assert(fee.amount >= 0, "fee.amount >= 0").Then(newParametersCheck)
  }
}
