/** The values passed around by the off-chain registry. */
module Primitives {

  datatype Option<+T> = None | Some(value: T)

  type u64 = x: nat | x < 0x1_0000_0000_0000_0000

  /** Keys and signatures are opaque; only equality matters. */
  datatype BlsPublicKey = BlsPublicKey(id: nat)
  datatype BlsSignature = BlsSignature(id: nat)

  type Address = nat
  type Url = string

  datatype Registration = Registration(
    validatorPubkey: BlsPublicKey,
    validatorIndex: u64,
    operator: Address,
    gasLimit: u64,
    expiry: u64,
    signature: Option<BlsSignature>)

  datatype Deregistration = Deregistration(
    validatorPubkey: BlsPublicKey,
    operator: Address,
    signature: BlsSignature)

  datatype RegistryEntry = RegistryEntry(
    validatorPubkey: BlsPublicKey,
    operator: Address,
    gasLimit: u64,
    rpcEndpoint: Url)

  datatype Operator = Operator(
    signer: Address,
    rpcEndpoint: Url,
    collateralTokens: seq<Address>,
    collateralAmounts: seq<nat>)

  datatype SyncStateUpdate = SyncStateUpdate(blockNumber: u64, epoch: u64, slot: u64)

  /** A validator the beacon chain reports as active. */
  datatype ValidatorSummary = ValidatorSummary(publicKey: BlsPublicKey, index: u64)

  datatype ProposerDuty = ProposerDuty(publicKey: BlsPublicKey, slot: u64)
}
