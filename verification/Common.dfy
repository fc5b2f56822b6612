/** The return values shared by the modules of the engine (sstp-common.h). */
module Common {

  datatype Status = SstpFail | SstpOkay | SstpInprog | SstpOverflow | SstpTimeout
}
