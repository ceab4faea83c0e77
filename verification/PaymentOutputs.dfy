/** The outputs of a transaction as far as payments to budgets and masternodes see them. */
module PaymentOutputs {

  type Script = int
  type Hash = int

  datatype TxOut = TxOut(scriptPubKey: Script, nValue: int)
}
